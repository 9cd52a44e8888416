# tb-tools core, modelled and verified in Dafny

tb-tools is a collection of small browser utilities. Most of each tool is
React UI around browser APIs. A few tools, though, carry their own integer
and string logic. This project models that logic in Dafny and proves what
each part promises:

- **QR code generator** (`qr_*.dfy`). The model covers:
  - the four-entry version table and version selection;
  - GF(256) with its exponent and logarithm tables;
  - the byte-mode bit stream with terminator and 0xEC/0x11 pad bytes;
  - bit packing and the placeholder error-correction bytes;
  - the tri-state matrix: finder, separator and timing patterns and the dark module;
  - zig-zag data placement, the three mask patterns and the format information.

  The matrix builders are methods over `array2<Cell>` with loop invariants.
  Each is proved against a function of the cell coordinates. The model
  follows the code as written, not ISO/IEC 18004: the error-correction
  bytes are zero, only mask 0 is applied, and the BCH loop runs from bit 10
  upward. Lemmas show the consequences: `QrFormat.BchCodeIsNotRemainder`
  and `QrFormat.SecondCopyCollision`.
- **MD5** (`md5.dfy`). This is RFC 1321 as the hash generator implements
  it by hand: padding, the length field, little-endian words, 64
  compression steps and lowercase hex output. Words are `bv32`. The
  imperative `md5`, `Md5.ComputeMd5`, is proved to return the hex text of
  the functional digest `Md5.Digest`.
- **Password generator** (`password.dfy`). The model covers:
  - charset assembly and one mandatory character per selected class;
  - the length and empty-selection errors;
  - rejection-sampled random integers over a pool of random bytes passed in as a parameter;
  - random insertion;
  - the strength score and its labels.
- **Timestamp converter** (`timestamp.dfy`). The model covers:
  - Japan-time `YYYY-MM-DDTHH:MM` input to Unix seconds;
  - 10-digit (seconds) and 13-digit (milliseconds) timestamps to `YYYY-MM-DD HH:MM:SS`;
  - `Date.UTC` and `toISOString` as proleptic Gregorian day arithmetic.

  The round trip between the two directions is proved for inputs in
  years 100–9999 whose timestamp prints with ten characters. In years
  0–99 it fails: `Date.UTC` reads those years as 1900–1999, and the
  timestamp comes back in the year 1900 + y (`Timestamp.TwoDigitYearRoundTrip`,
  `Timestamp.TwoDigitYearExample`).
- **JSON formatter** (`json_format.dfy`). This is recursive key sorting
  over a JSON datatype, with the indent options and the error state of the
  formatter.
- **Image converter** (`image_convert.dfy`). This covers the file type and
  size checks, and the Base64 test on pasted text against the alphabet of
  section 4 of RFC 4648.
- **Colour helpers and palette** (`color_utils.dfy`, `color_palette.dfy`).
  These cover HSL normalisation, HSL to RGB and hex formatting, and the
  complementary, analogous and monochromatic variants.
- **JavaScript built-ins** (`js_prims.dfy`). These are the pieces of the
  language the tools rely on:
  - truncating `%`;
  - `toString(16)` and `toString()`;
  - `padStart`, `trim`, `split`, `Number`, `parseInt`, `slice` and `replace`.

  `wrappers.dfy` holds `Option` and `Result`.

JavaScript numbers are modelled as exact integers wherever the code keeps
them integral. The truncating `%` is written out as `JsRem`.

## Model

| member | source | states |
|---|---|---|
| QrVersions.VersionsWellFormed | src/components/tools/qr-generator/QrGenerator.tsx:20-25 | the four table entries are versions 1..4 in order, each 17 + 4·version modules wide |
| QrVersions.CapacityIncreasing | src/components/tools/qr-generator/QrGenerator.tsx:20-25 | at every level the capacity grows with the version |
| QrVersions.SelectVersion | src/components/tools/qr-generator/QrGenerator.tsx:123-126 | `find` returns the first entry whose capacity at the level is at least the text length, so no smaller version would do |
| QrVersions.SelectVersionNone | src/components/tools/qr-generator/QrGenerator.tsx:123-126 | no version is found exactly when the text is longer than version 4's capacity at the level |
| QrVersions.EcBlocks | src/components/tools/qr-generator/QrGenerator.tsx:248-256 | always positive, and the `|| 10` fallback for any version outside 1..4 |
| Gf256.Primitive | src/components/tools/qr-generator/QrGenerator.tsx:37-45 | doubling modulo 0x11d from 1 first returns to 1 after 255 steps, so 2 generates the multiplicative group |
| Gf256.ExpInRange | src/components/tools/qr-generator/QrGenerator.tsx:37-45 | every exponent-table entry is a nonzero byte |
| Gf256.ExpSucc | src/components/tools/qr-generator/QrGenerator.tsx:39-44 | each entry is the previous one shifted left and reduced by 0x11d when bit 8 is set |
| Gf256.ExpInjective | src/components/tools/qr-generator/QrGenerator.tsx:37-45 | the 255 exponent-table entries are pairwise distinct |
| Gf256.ExpPeriodic | src/components/tools/qr-generator/QrGenerator.tsx:37-45 | the powers of 2 repeat with period 255 |
| Gf256.ExpOnto | src/components/tools/qr-generator/QrGenerator.tsx:37-45 | every nonzero byte occurs in the exponent table, so the logarithm table has no gap over 1..255 |
| Gf256.GaloisField.constructor | src/components/tools/qr-generator/QrGenerator.tsx:32-46 | the static initialiser: EXP_TABLE holds the 255 powers of 2 in order and LOG_TABLE maps each of them back to its exponent |
| Gf256.GaloisField.LogOf | src/components/tools/qr-generator/QrGenerator.tsx:40 | LOG_TABLE[a] for a nonzero byte is its discrete logarithm, below 255 |
| Gf256.GaloisField.Multiply | src/components/tools/qr-generator/QrGenerator.tsx:48-51 | 0 exactly when a factor is 0; undefined (None) when a nonzero factor lies outside 0..255; otherwise a nonzero byte |
| Gf256.GaloisField.Power | src/components/tools/qr-generator/QrGenerator.tsx:53-56 | 0 for base 0; a nonzero byte whenever defined; defined for every byte base and non-negative exponent |
| Gf256.GaloisField.MultiplyCommutes | src/components/tools/qr-generator/QrGenerator.tsx:48-51 | multiply is commutative |
| Gf256.GaloisField.MultiplyPowers | src/components/tools/qr-generator/QrGenerator.tsx:48-51 | multiplying two powers of 2 adds their exponents |
| Gf256.GaloisField.MultiplyByOne | src/components/tools/qr-generator/QrGenerator.tsx:48-51 | 1 is the unit of multiply on nonzero bytes |
| Gf256.GaloisField.PowerOfPower | src/components/tools/qr-generator/QrGenerator.tsx:53-56 | raising a power of 2 to exp multiplies its exponent by exp modulo 255 |
| QrBitStream.Bits | src/components/tools/qr-generator/QrGenerator.tsx:174-176 | exactly w bits; ValueOfBits and BitsOfValue pin down which |
| QrBitStream.StreamLayout | src/components/tools/qr-generator/QrGenerator.tsx:186-207 | exactly four terminator zeros follow the data bits, then whole pad codewords up to the capacity, none when the data already reaches it |
| QrBitStream.PaddedLayout | src/components/tools/qr-generator/QrGenerator.tsx:192-207 | the alignment and pad loops on any header that ends four bits past a byte boundary |
| QrBitStream.StreamAligned | src/components/tools/qr-generator/QrGenerator.tsx:192-194 | the stream is a whole number of bytes |
| QrBitStream.StreamFillsCapacity | src/components/tools/qr-generator/QrGenerator.tsx:186-207 | when the header, data and terminator fit, the stream is exactly capacity·8 bits |
| QrBitStream.StreamOverflows | src/components/tools/qr-generator/QrGenerator.tsx:186-189 | when they do not fit, only four zeros are added and the stream exceeds the capacity |
| QrBitStream.StreamHeader | src/components/tools/qr-generator/QrGenerator.tsx:168-184 | the stream opens with mode 0100, the text length in 8 bits (16 above version 9) and bits 7..0 of every code unit in order |
| QrBitStream.HeaderFields | src/components/tools/qr-generator/QrGenerator.tsx:168-184 | the mode, length and character fields can be read back from any stream that starts with the header |
| QrBitStream.PadBitsAlternate | src/components/tools/qr-generator/QrGenerator.tsx:197-207 | the pad codewords alternate 236, 17, starting with 236 |
| QrBitStream.ValueOfBits | src/components/tools/qr-generator/QrGenerator.tsx:174-176 | reading w bits back gives the number when it fits in w bits |
| QrBitStream.BitsOfValue | src/components/tools/qr-generator/QrGenerator.tsx:174-176 | writing a bit list's value in as many bits gives the list back |
| QrBitStream.UnpackPack | src/components/tools/qr-generator/QrGenerator.tsx:221-242 | bits to bytes and back is the identity on a whole number of bytes |
| QrBitStream.PackUnpack | src/components/tools/qr-generator/QrGenerator.tsx:221-242 | bytes to bits and back is the identity on values below 256 |
| QrBitStream.WithEcBytesShape | src/components/tools/qr-generator/QrGenerator.tsx:216-245 | addErrorCorrection returns a byte-aligned input unchanged, followed by 8 zero bits per error-correction byte |
| QrBitStream.TerminatorStep | src/components/tools/qr-generator/QrGenerator.tsx:187 | the terminator loop re-evaluates Math.min(4, capacity·8 − length) and runs while fewer zeros than that were pushed |
| QrBitStream.PushBits | src/components/tools/qr-generator/QrGenerator.tsx:174-176 | appends exactly w bits; ValueOfBits and BitsOfValue pin down which |
| QrBitStream.PushBitsBelow | src/components/tools/qr-generator/QrGenerator.tsx:201-205 | appends the bits of x, most significant first, only while the stream is shorter than the limit |
| QrBitStream.EncodeData | src/components/tools/qr-generator/QrGenerator.tsx:165-213 | the header, terminator, alignment and pad bits, passed through addErrorCorrection and mapped to booleans |
| QrBitStream.AddTerminatorAndPadding | src/components/tools/qr-generator/QrGenerator.tsx:186-207 | the terminator, alignment and pad-codeword loops append exactly the trailer of the stream |
| QrBitStream.AddTerminator | src/components/tools/qr-generator/QrGenerator.tsx:187-189 | appends the count of zeros the re-evaluated bound allows |
| QrBitStream.AlignToByte | src/components/tools/qr-generator/QrGenerator.tsx:192-194 | appends zeros up to the next byte boundary |
| QrBitStream.AddPadBytes | src/components/tools/qr-generator/QrGenerator.tsx:197-207 | appends pad codewords while the stream is shorter than the capacity |
| QrBitStream.AddErrorCorrection | src/components/tools/qr-generator/QrGenerator.tsx:216-245 | packs the bits into bytes, appends EcBlocks zero bytes and unpacks, which keeps an aligned input and adds 8 zero bits per byte |
| QrBitStream.PackBytes | src/components/tools/qr-generator/QrGenerator.tsx:222-228 | the chunks of 8 bits, the last possibly shorter, read as numbers |
| QrFormat.XorBit | src/components/tools/qr-generator/QrGenerator.tsx:396 | bit i of a ^ b is set when exactly one of a and b has it |
| QrFormat.XorCancel | src/components/tools/qr-generator/QrGenerator.tsx:396 | xor-ing the same value in twice cancels |
| QrFormat.EcLevelBits | src/components/tools/qr-generator/QrGenerator.tsx:387 | the level bits L 1, M 0, Q 3, H 2 |
| QrFormat.EcLevelBitsInjective | src/components/tools/qr-generator/QrGenerator.tsx:387 | distinct levels have distinct bits |
| QrFormat.FormatInfoFields | src/components/tools/qr-generator/QrGenerator.tsx:388 | for a mask below 8 the five bits hold the level above the mask and both read back |
| QrFormat.CodeWordFields | src/components/tools/qr-generator/QrGenerator.tsx:391-400 | in the BCH code word the check bits lie below the ten-bit boundary, under the five data bits |
| QrFormat.CodeWordInjective | src/components/tools/qr-generator/QrGenerator.tsx:391-400 | distinct format information gives distinct code words |
| QrFormat.CodeWordIsMultiple | src/components/tools/qr-generator/QrGenerator.tsx:391-400 | every BCH code word is a multiple of the generator 0x537 |
| QrFormat.ComputeBchCode | src/components/tools/qr-generator/QrGenerator.tsx:391-398 | the five reduction steps from bit 10 upward, as the loop runs them |
| QrFormat.FinalFormatBound | src/components/tools/qr-generator/QrGenerator.tsx:400 | the value written stays below 2^15, so the fifteen bits are all of it |
| QrFormat.BchCodeOfLevelLMask0 | src/components/tools/qr-generator/QrGenerator.tsx:391-398 | for level L with mask 0 the loop leaves 0x09B8 |
| QrFormat.FinalFormatOfLevelLMask0 | src/components/tools/qr-generator/QrGenerator.tsx:400 | or-ed into the word, bit 11 of that code turns the data bits into 01010 |
| QrFormat.BchCodeIsNotRemainder | src/components/tools/qr-generator/QrGenerator.tsx:391-400 | the loop leaves a value with bit 11 set, so it is not the remainder, and the written data bits name mask 2 instead of mask 0 |
| QrFormat.ComputeFormatBits | src/components/tools/qr-generator/QrGenerator.tsx:401-404 | the fifteen bits of the value, most significant first |
| QrFormat.FormatBitsRoundTrip | src/components/tools/qr-generator/QrGenerator.tsx:401-404 | the fifteen bits spell the written value back |
| QrFormat.FormatCellsDistinct | src/components/tools/qr-generator/QrGenerator.tsx:407-423 | the two copies share no cell, the first copy uses fifteen distinct cells, and in the second only steps 5 and 7 share a cell |
| QrFormat.SecondCopyCollision | src/components/tools/qr-generator/QrGenerator.tsx:410-415 | step 7 overwrites the cell of step 5 in the second copy, and (8, size − 7) is written by neither copy |
| QrFormat.FirstCopyComplete | src/components/tools/qr-generator/QrGenerator.tsx:407-423 | the first copy ends up holding bit i at its cell i |
| QrFormat.SecondCopyHolds | src/components/tools/qr-generator/QrGenerator.tsx:407-423 | the second copy holds bit i at its cell i, except that cell 5 holds bit 7 |
| QrFormat.FormatCellsReserved | src/components/tools/qr-generator/QrGenerator.tsx:369-383 | every format cell lies in row 8 or column 8 and inside the area isReservedArea reserves |
| QrFormat.AddFormatInfo | src/components/tools/qr-generator/QrGenerator.tsx:386-424 | computes the format word and writes both copies; no other cell changes |
| QrFormat.WriteFormatBits | src/components/tools/qr-generator/QrGenerator.tsx:407-423 | bit i goes to its cell in each copy, the second copy after the first, later writes winning |
| QrMatrix.FinderRings | src/components/tools/qr-generator/QrGenerator.tsx:260-268 | the pattern is a dark 7×7 ring, a light 5×5 ring and a dark 3×3 core |
| QrMatrix.AddFinderPattern | src/components/tools/qr-generator/QrGenerator.tsx:259-277 | writes the pattern at (startRow, startCol), clipped to the matrix; other cells keep their value |
| QrMatrix.AddSeparators | src/components/tools/qr-generator/QrGenerator.tsx:280-298 | the light cells of the three separators, with the source's guards; other cells keep their value |
| QrMatrix.AddTimingPatterns | src/components/tools/qr-generator/QrGenerator.tsx:301-306 | row 6 and column 6 from 8 to size − 9 alternate, dark at even positions |
| QrMatrix.TimingColours | src/components/tools/qr-generator/QrGenerator.tsx:303-304 | the timing modules are dark exactly at even positions |
| QrMatrix.MaskInvolution | src/components/tools/qr-generator/QrGenerator.tsx:336-366 | masking twice with the same pattern restores every cell |
| QrMatrix.MaskBeyondTwoIsIdentity | src/components/tools/qr-generator/QrGenerator.tsx:345-356 | patterns 3 and above change nothing |
| QrMatrix.ApplyMask | src/components/tools/qr-generator/QrGenerator.tsx:336-366 | a fresh copy in which non-null, unreserved cells are inverted where the pattern holds; the input is not modified |
| QrPlacement.ZigZagInBounds | src/components/tools/qr-generator/QrGenerator.tsx:313-332 | every visited cell lies inside the matrix, at or left of the starting column |
| QrPlacement.ZigZagDistinct | src/components/tools/qr-generator/QrGenerator.tsx:313-332 | no cell is visited twice |
| QrPlacement.ZigZagCovers | src/components/tools/qr-generator/QrGenerator.tsx:313-332 | every cell at or left of the start is visited except column 6 |
| QrPlacement.IndexOfFirst | src/components/tools/qr-generator/QrGenerator.tsx:313-332 | the position of a cell in the visiting order is its first occurrence |
| QrPlacement.PlacedReadBack | src/components/tools/qr-generator/QrGenerator.tsx:321-327 | reading the null cells back in visiting order gives the data, cut to their number, then light modules |
| QrPlacement.PlacedFills | src/components/tools/qr-generator/QrGenerator.tsx:321-327 | every null cell reached is filled and every other cell keeps its value |
| QrPlacement.RunIsPlaced | src/components/tools/qr-generator/QrGenerator.tsx:316-330 | visiting distinct cells one at a time leaves what the declarative placement describes |
| QrPlacement.RunZigZag | src/components/tools/qr-generator/QrGenerator.tsx:309-333 | running the whole zig-zag order gives the declarative placement, cell by cell |
| QrPlacement.PlaceData | src/components/tools/qr-generator/QrGenerator.tsx:309-333 | placeData writes each cell of the matrix as the declarative placement says |
| QrPlacement.PlaceColumns | src/components/tools/qr-generator/QrGenerator.tsx:313-332 | the column-pair loop, right to left, alternating direction, skipping column 6 |
| QrPlacement.PlacePair | src/components/tools/qr-generator/QrGenerator.tsx:316-330 | one column pair, its rows upwards or downwards |
| QrPlacement.PlaceRow | src/components/tools/qr-generator/QrGenerator.tsx:319-329 | one row of a column pair: the right column, then the left one |
| QrPlacement.VisitCell | src/components/tools/qr-generator/QrGenerator.tsx:321-328 | a null cell takes the next data bit, or light past the end; a set cell is left alone |
| QrSymbol.ShapedSize | src/components/tools/qr-generator/QrGenerator.tsx:20-25 | sizes run over the odd numbers 21..33 |
| QrSymbol.AddFixedPatterns | src/components/tools/qr-generator/QrGenerator.tsx:131-147 | the all-null matrix with finders, separators, timing and dark module written in |
| QrSymbol.GenerateQrMatrix | src/components/tools/qr-generator/QrGenerator.tsx:129-162 | a fresh matrix whose every cell is the symbol cell the fixed patterns, placement, mask 0 and format bits determine |
| QrSymbol.GenerateQrCode | src/components/tools/qr-generator/QrGenerator.tsx:84-91 | fails with "Text too long for QR code" exactly when no version fits; otherwise returns the symbol matrix |
| QrSymbol.SymbolFinder | src/components/tools/qr-generator/QrGenerator.tsx:134-136 | the three corners hold the 7×7 finder pattern |
| QrSymbol.SymbolSeparators | src/components/tools/qr-generator/QrGenerator.tsx:139 | the separators around the finder patterns are light |
| QrSymbol.SymbolTiming | src/components/tools/qr-generator/QrGenerator.tsx:142 | the timing modules along row 6 and column 6 are dark exactly at even positions |
| QrSymbol.SymbolDarkModule | src/components/tools/qr-generator/QrGenerator.tsx:145-147 | the dark module (4·version + 9, 8) is set only in symbols wider than 21 |
| QrSymbol.ColumnSixFixed | src/components/tools/qr-generator/QrGenerator.tsx:314 | column 6 is taken by fixed patterns from top to bottom, so placeData may skip it |
| QrSymbol.SymbolNoNull | src/components/tools/qr-generator/QrGenerator.tsx:153-161 | no cell of the returned matrix is null |
| QrSymbol.SymbolData | src/components/tools/qr-generator/QrGenerator.tsx:150-156 | a cell outside the reserved area holds its data bit, or light past the end, inverted by mask 0 where (row + col) is even |
| QrSymbol.SymbolFirstFormatCopy | src/components/tools/qr-generator/QrGenerator.tsx:159 | the first copy of the format information holds the fifteen bits in order |
| QrSymbol.SymbolSecondFormatCopy | src/components/tools/qr-generator/QrGenerator.tsx:159 | the second copy holds the bits in order, except its cell for bit 5 holds bit 7 |
| QrVersions.FindFrom | src/components/tools/qr-generator/QrGenerator.tsx:123-126 | the first version from i on whose capacity at the level holds n characters, or none exactly when no later version does |
| QrMatrix.MaskCell | src/components/tools/qr-generator/QrGenerator.tsx:342-360 | null cells and reserved cells are kept; any other cell is inverted exactly when the pattern's condition holds at (row, col) |
| QrSymbol.FixedFinder | src/components/tools/qr-generator/QrGenerator.tsx:134-136 | a cell inside a finder square holds the finder pattern and is reserved |
| QrSymbol.FixedSeparators | src/components/tools/qr-generator/QrGenerator.tsx:139 | a separator cell is light and reserved |
| QrSymbol.FixedTiming | src/components/tools/qr-generator/QrGenerator.tsx:142 | the timing cells of row 6 and column 6 between the finders are dark at even positions and reserved |
| QrSymbol.FixedDarkModule | src/components/tools/qr-generator/QrGenerator.tsx:145-147 | in symbols wider than 21 the cell (4·version + 9, 8) is dark and reserved |
| QrSymbol.FixedCellKept | src/components/tools/qr-generator/QrGenerator.tsx:129-162 | a fixed, reserved cell that no format bit overwrites ends up in the symbol unchanged |
| QrPlacement.PlaceColumn | src/components/tools/qr-generator/QrGenerator.tsx:313-330 | one turn of the loop: column 6 is replaced by 5, that pair is filled, and the loop goes on two columns to the left |
| QrPlacement.RowTurn | src/components/tools/qr-generator/QrGenerator.tsx:319-327 | the cell (row, col - c) is visited: a null cell takes the next data bit, or light once the data is used up |
| Md5.U64RoundTrip | src/components/tools/hash-generator/HashGenerator.tsx:41-43 | the eight little-endian bytes of the length field read back as the 64-bit value |
| Md5.PaddedLength | src/components/tools/hash-generator/HashGenerator.tsx:34-37 | the padded length is a multiple of 64, between 9 and 72 bytes longer than the message |
| Md5.PaddedShape | src/components/tools/hash-generator/HashGenerator.tsx:34-43 | the message, then 0x80, then zeros, then the bit length modulo 2^64 little-endian in the last 8 bytes (sections 3.1 and 3.2 of RFC 1321) |
| Md5.SetBigUint64 | src/components/tools/hash-generator/HashGenerator.tsx:43 | stores the value modulo 2^64 little-endian at the offset; every other byte is unchanged |
| Md5.Pad | src/components/tools/hash-generator/HashGenerator.tsx:34-43 | a fresh buffer holding exactly the padded message |
| Md5.WordRoundTrip | src/components/tools/hash-generator/HashGenerator.tsx:55 | decoding four bytes little-endian and storing a word little-endian are inverse in both directions |
| Md5.ChunkWordsLittleEndian | src/components/tools/hash-generator/HashGenerator.tsx:54-56 | word j of a chunk is stored in its bytes 4j..4j+3, least significant first |
| Md5.DecodeChunk | src/components/tools/hash-generator/HashGenerator.tsx:51-56 | a fresh array of the 16 little-endian words of the chunk at offset i |
| Md5.RoundFunctionByRound | src/components/tools/hash-generator/HashGenerator.tsx:66-78 | steps 0-15, 16-31, 32-47 and 48-63 apply F, G, H and I respectively |
| Md5.RoundIndicesArePermutations | src/components/tools/hash-generator/HashGenerator.tsx:66-78 | within each 16-step round the message index g visits 0..15 exactly once |
| Md5.FirstRoundTable | src/components/tools/hash-generator/HashGenerator.tsx:68 | the round-1 index order j is a permutation of 0..15 |
| Md5.SecondRoundTable | src/components/tools/hash-generator/HashGenerator.tsx:71 | the round-2 order (5j + 1) % 16 is a permutation of 0..15 |
| Md5.ThirdRoundTable | src/components/tools/hash-generator/HashGenerator.tsx:74 | the round-3 order (3j + 5) % 16 is a permutation of 0..15 |
| Md5.FourthRoundTable | src/components/tools/hash-generator/HashGenerator.tsx:77 | the round-4 order 7j % 16 is a permutation of 0..15 |
| Md5.RotateLeftIsRotation | src/components/tools/hash-generator/HashGenerator.tsx:18-20 | `(x << n) \| (x >>> (32 - n))` is the 32-bit left rotation for every count 1..31 |
| Md5.CompressChunk | src/components/tools/hash-generator/HashGenerator.tsx:58-91 | the 64 steps over the chunk's words and the chaining update give the compression function of the chaining values |
| Md5.ByteHexDigits | src/components/tools/hash-generator/HashGenerator.tsx:14 | a byte renders as its high nibble then its low nibble, lowercase |
| Md5.ByteHexReadsBack | src/components/tools/hash-generator/HashGenerator.tsx:14 | a byte's two characters read back as the byte |
| Md5.ToHexStringLayout | src/components/tools/hash-generator/HashGenerator.tsx:12-16 | byte i is rendered at characters 2i and 2i + 1, high nibble first |
| Md5.ToHexStringDigits | src/components/tools/hash-generator/HashGenerator.tsx:12-16 | the rendering consists of lowercase hex digits only |
| Md5.ParseJoinedPairs | src/components/tools/hash-generator/HashGenerator.tsx:15 | joining two-character parts and reading pairs back gives the parts' values |
| Md5.ToHexStringReadsBack | src/components/tools/hash-generator/HashGenerator.tsx:12-16 | the rendering reads back as the bytes |
| Md5.Md5HexShape | src/components/tools/hash-generator/HashGenerator.tsx:9-101 | the result is 32 lowercase hex digits and reads back as the 16 digest bytes |
| Md5.SetUint32 | src/components/tools/hash-generator/HashGenerator.tsx:95-98 | stores the word little-endian at the offset; every other byte is unchanged |
| Md5.ComputeMd5 | src/components/tools/hash-generator/HashGenerator.tsx:9-101 | md5 of the encoded bytes is the hex rendering of the digest |
| Md5.ProcessChunks | src/components/tools/hash-generator/HashGenerator.tsx:50-92 | the chaining values after every 64-byte chunk has been compressed, in order |
| Md5.Output | src/components/tools/hash-generator/HashGenerator.tsx:94-100 | h0..h3 stored little-endian and rendered as hex |
| Md5.CalculateHash | src/components/tools/hash-generator/HashGenerator.tsx:103-106 | the md5 branch is taken exactly for 'md5' and returns md5 of the text; the other algorithms are outside the model |
| Password.BytesNeeded | src/components/tools/password-generator/PasswordGenerator.tsx:172 | the fewest bytes whose 256^k values cover the range |
| Password.MaxAllowedIsMultiple | src/components/tools/password-generator/PasswordGenerator.tsx:173-174 | maxAllowed is a multiple of the range, at least the range and at most 256^bytesNeeded |
| Password.SecureRandomIntInRange | src/components/tools/password-generator/PasswordGenerator.tsx:170-188 | a draw that succeeds lies in [min, max), comes from an accepted raw value below maxAllowed as min + raw % range, and consumes a prefix of the random bytes |
| Password.DivisionOf | src/components/tools/password-generator/PasswordGenerator.tsx:187 | a value range·q + r with r below the range leaves remainder r |
| Password.AcceptedRawValuesAreBalanced | src/components/tools/password-generator/PasswordGenerator.tsx:174-187 | no modulo bias: every result in [min, max) comes from exactly maxAllowed / range accepted raw values |
| Password.GetSecureRandomInt | src/components/tools/password-generator/PasswordGenerator.tsx:170-188 | the rejection loop returns exactly the specified draw, or runs out of random bytes |
| Password.RandomCharFromCharset | src/components/tools/password-generator/PasswordGenerator.tsx:164-167 | the character drawn belongs to the charset |
| Password.GetRandomChar | src/components/tools/password-generator/PasswordGenerator.tsx:164-167 | returns the character at the drawn index |
| Password.InsertedKeepsCharacters | src/components/tools/password-generator/PasswordGenerator.tsx:191-200 | insertRandomly returns |str| + |chars| characters, the multiset union of both, with str's characters in their original order |
| Password.InsertRandomly | src/components/tools/password-generator/PasswordGenerator.tsx:191-200 | the splice loop returns exactly the specified insertion |
| Password.SelectedCount | src/components/tools/password-generator/PasswordGenerator.tsx:118-138 | the number of selected classes, at most 4, and 0 exactly when none is selected |
| Password.CharsetIsConcatenation | src/components/tools/password-generator/PasswordGenerator.tsx:117-138 | the charset is the selected sets concatenated in the order upper, lower, digits, special, with one mandatory draw per selected class |
| Password.CharsetMembership | src/components/tools/password-generator/PasswordGenerator.tsx:117-138 | a character is in the charset exactly when it belongs to a selected class |
| Password.CharsetSize | src/components/tools/password-generator/PasswordGenerator.tsx:117-142 | the charset is empty exactly when no class is selected, and has at most 91 characters |
| Password.SecurePasswordErrors | src/components/tools/password-generator/PasswordGenerator.tsx:140-147 | the two errors: no class selected, or more classes than characters; no failure happens otherwise |
| Password.CompleteShape | src/components/tools/password-generator/PasswordGenerator.tsx:150-158 | a completed password has the requested length, only charset characters, and every mandatory character |
| Password.MandatoryInCharset | src/components/tools/password-generator/PasswordGenerator.tsx:120-138 | each mandatory draw lies in the charset |
| Password.SecurePasswordShape | src/components/tools/password-generator/PasswordGenerator.tsx:103-161 | a generated password has exactly length characters, all from the charset, and at least one from each selected class |
| Password.SelectedSetsOfClasses | src/components/tools/password-generator/PasswordGenerator.tsx:120-138 | a class is drawn from exactly when its switch is on |
| Password.DrawClass | src/components/tools/password-generator/PasswordGenerator.tsx:120-123 | one `if (useX)` block appends the set to the charset and one draw to mustInclude |
| Password.DrawMandatory | src/components/tools/password-generator/PasswordGenerator.tsx:117-138 | the four blocks build the charset and the mandatory draws in the order upper, lower, digits, special |
| Password.GenerateSecurePassword | src/components/tools/password-generator/PasswordGenerator.tsx:103-161 | returns exactly the specified password, error or exhaustion of the random bytes |
| Password.CheckAndFill | src/components/tools/password-generator/PasswordGenerator.tsx:140-160 | the two checks, the filling loop and the insertion, as specified |
| Password.StrengthIsMonotone | src/components/tools/password-generator/PasswordGenerator.tsx:57-69 | a higher score never gives a weaker label, and the labels change exactly at 3, 5 and 7 |
| Password.AssessLabels | src/components/tools/password-generator/PasswordGenerator.tsx:28-73 | an empty or placeholder password gets no label; any other gets one of the four labels from a score in 0..8 |
| Password.AllClassesAreStrong | src/components/tools/password-generator/PasswordGenerator.tsx:35-69 | at least 8 characters with all four classes gives at least 強い, and 16 diverse characters 非常に強い |
| Password.ClassesOfSets | src/components/tools/password-generator/PasswordGenerator.tsx:43-46 | the four sets' characters are classified by the regexes as upper, lower, digit and other |
| Password.CharsetIsAscii | src/components/tools/password-generator/PasswordGenerator.tsx:111-114 | every charset character is ASCII, so a generated password is never the placeholder text |
| Password.GeneratedPasswordIsStrong | src/components/tools/password-generator/PasswordGenerator.tsx:76-100 | a password generated with all four classes and length at least 8 is rated 強い or 非常に強い |
| Password.GeneratorState.constructor | src/components/tools/password-generator/PasswordGenerator.tsx:12-25 | the initial state: length 12, all four classes, empty password, no error, no label, grey colour |
| Password.GeneratorState.SetPasswordLength | src/components/tools/password-generator/PasswordGenerator.tsx:256-261 | a parsed value outside 8..64 is ignored; nothing else changes |
| Password.GeneratorState.EvaluatePasswordStrength | src/components/tools/password-generator/PasswordGenerator.tsx:28-73 | writes the label and colour of the password's assessment; nothing else changes |
| Password.GeneratorState.HandleGeneratePassword | src/components/tools/password-generator/PasswordGenerator.tsx:76-100 | clears the error; an empty selection is refused and a failed or exhausted draw reports its error or nothing, all three keeping the old password, its rating and the random bytes; a generated password is stored and rated and the unused bytes returned |
| Password.HandlerNeverCatches | src/components/tools/password-generator/PasswordGenerator.tsx:85-99 | with length 8..64 and a class selected the generator never throws, so the catch branch is dead |
| Password.DrawEachShape | src/components/tools/password-generator/PasswordGenerator.tsx:117-138 | drawing one character from each chosen set keeps what came before and adds one character from each set, in set order |
| Password.FillShape | src/components/tools/password-generator/PasswordGenerator.tsx:150-155 | filling with n characters from the charset adds exactly n, all from the charset |
| Password.PasswordScore | src/components/tools/password-generator/PasswordGenerator.tsx:35-51 | one point each for a length of at least 8, 12 and 16, for an upper-case letter, a lower-case letter, a digit and any other character, and one when more than 70% of the characters are distinct |
| Password.ClassCoverage | src/components/tools/password-generator/PasswordGenerator.tsx:43-46 | a text holding a character of each of the four sets passes all four class tests |
| Password.SpliceKeeps | src/components/tools/password-generator/PasswordGenerator.tsx:197 | inserting one character grows the text by one, adds that character to its multiset and keeps the old text as a subsequence |
| JsPrims.JsRem | src/lib/colorUtils.ts:5 | JavaScript's `%` truncates toward zero: the remainder is in [0, |b|) for a ≥ 0 and in (−|b|, 0] for a < 0 |
| JsPrims.HexValue | src/components/tools/hash-generator/HashGenerator.tsx:14 | a digit's value is below 16 and HexDigit of it gives the digit back |
| JsPrims.ToHexRoundTrip | src/components/tools/hash-generator/HashGenerator.tsx:14 | `toString(16)` prints lowercase hex digits without a leading zero, and they read back as the number |
| JsPrims.PadStart | src/components/tools/hash-generator/HashGenerator.tsx:14 | the result is max(|s|, len) long, ends with s and is the fill character before it |
| JsPrims.TwoHexDigits | src/components/tools/hash-generator/HashGenerator.tsx:14 | `b.toString(16).padStart(2, '0')` for a byte is exactly its high and low hex digit |
| JsPrims.JoinPairs | src/components/tools/hash-generator/HashGenerator.tsx:15 | `join('')` of two-character parts puts part i at characters 2i and 2i + 1 |
| JsPrims.ToDecimalRoundTrip | src/components/tools/timestamp-converter/TimestampConverter.tsx:99 | `toString()` of a non-negative integer prints decimal digits without a leading zero that read back as the number, and its length brackets it between powers of ten |
| JsPrims.DecimalLength | src/components/tools/timestamp-converter/TimestampConverter.tsx:69 | a k-digit `toString()` means exactly 10^(k−1) ≤ n < 10^k |
| JsPrims.DecimalValueLeadingZeros | src/components/tools/timestamp-converter/TimestampConverter.tsx:87 | leading zeros do not change the value of a digit string |
| JsPrims.PaddedDecimal | src/components/tools/timestamp-converter/TimestampConverter.tsx:87 | a number below 10^width padded with zeros to width reads back as the number and has width digits |
| JsPrims.TrimStart | src/components/tools/timestamp-converter/TimestampConverter.tsx:62 | what remains is a suffix starting with a non-space, and everything removed was white space |
| JsPrims.TrimEnd | src/components/tools/timestamp-converter/TimestampConverter.tsx:62 | what remains is a prefix ending with a non-space, and everything removed was white space |
| JsPrims.SplitAt | src/components/tools/timestamp-converter/TimestampConverter.tsx:36-38 | a piece without the separator, followed by the separator, splits off first |
| JsPrims.SplitNone | src/components/tools/timestamp-converter/TimestampConverter.tsx:36-38 | text without the separator is a single piece |
| JsPrims.SplitSeparated | src/components/tools/timestamp-converter/TimestampConverter.tsx:34-36 | text containing the separator splits into at least two pieces |
| JsPrims.NumberOfDigits | src/components/tools/timestamp-converter/TimestampConverter.tsx:37-38 | `Number` reads a digit string as its decimal value |
| JsPrims.TrimDigits | src/components/tools/timestamp-converter/TimestampConverter.tsx:37-38 | text starting and ending with a digit is left alone by trimming |
| JsPrims.DigitRun | src/components/tools/timestamp-converter/TimestampConverter.tsx:62 | the longest prefix of radix digits: all digits before it, none at its end |
| JsPrims.RadixTenIsDecimal | src/components/tools/timestamp-converter/TimestampConverter.tsx:62 | parseInt's radix-10 reading of a digit string agrees with its decimal value |
| JsPrims.ParseIntOfNumberToString | src/components/tools/timestamp-converter/TimestampConverter.tsx:99 | below 10^21 in magnitude, parseInt reads back what `toString()` printed, negative numbers included |
| JsPrims.ReplaceFirstAt | src/components/tools/timestamp-converter/TimestampConverter.tsx:87 | `replace('T', ' ')` replaces only the first 'T' |
| JsPrims.DecimalLengthAtMost | src/components/tools/timestamp-converter/TimestampConverter.tsx:87 | a number below 10^w prints with at most w digits |
| JsPrims.ParseIntOfDigits | src/components/tools/timestamp-converter/TimestampConverter.tsx:99 | a digit string with no leading zero reads back as its decimal value |
| JsPrims.ParseIntOfNegatedDigits | src/components/tools/timestamp-converter/TimestampConverter.tsx:99 | a minus sign followed by such a digit string reads back as the negated value |
| JsPrims.TrimTrailingZeros | src/components/tools/timestamp-converter/TimestampConverter.tsx:69 | the result is a prefix, everything removed is '0', and it does not end in '0' |
| JsPrims.ExponentFormOfScaled | src/components/tools/timestamp-converter/TimestampConverter.tsx:69 | from 10^21 on, y·10^k for y not ending in 0 prints as y's first digit, '.' and its other digits if any, then "e+" and the exponent |
| JsPrims.ParseIntOfExponentForm | src/components/tools/timestamp-converter/TimestampConverter.tsx:62-69 | parseInt of a number printed in exponent form reads back only its first digit |
| JsPrims.ParseIntOfNegativeExponentForm | src/components/tools/timestamp-converter/TimestampConverter.tsx:62-69 | the same for a negative number: the first digit, negated |
| JsPrims.ExponentFormWitness | src/components/tools/timestamp-converter/TimestampConverter.tsx:69 | 12345·10^17 has 22 digits and prints with 10 characters |
| JsPrims.ToDecimalScaled | src/components/tools/timestamp-converter/TimestampConverter.tsx:69 | the digits of y·10^k are those of y followed by k zeros |
| JsPrims.TrimZerosAfter | src/components/tools/timestamp-converter/TimestampConverter.tsx:69 | trimming the zeros appended to a text that does not end in '0' gives that text back |
| Timestamp.DayFromYearStep | src/components/tools/timestamp-converter/TimestampConverter.tsx:40 | the first day of year y + 1 is the first day of year y plus the length of year y (365, or 366 in a Gregorian leap year) |
| Timestamp.DayFromYearGrowth | src/components/tools/timestamp-converter/TimestampConverter.tsx:40 | between two years the day number grows by at least 365 and at most 366 days a year |
| Timestamp.YearFromDay | src/components/tools/timestamp-converter/TimestampConverter.tsx:84-87 | every day number lies in exactly the year it is assigned: on or after its first day and before the next year's |
| Timestamp.YearFromDayUnique | src/components/tools/timestamp-converter/TimestampConverter.tsx:84-87 | that year is the only one whose day range holds the day |
| Timestamp.MonthTable | src/components/tools/timestamp-converter/TimestampConverter.tsx:84-87 | the months of a year add up to 365 or 366 days and each has 28 to 31 |
| Timestamp.MonthFromDayInYear | src/components/tools/timestamp-converter/TimestampConverter.tsx:84-87 | a day of the year falls in a month 1..12 whose day range holds it |
| Timestamp.MonthFromDayInYearUnique | src/components/tools/timestamp-converter/TimestampConverter.tsx:84-87 | that month is the only one whose range holds the day |
| Timestamp.DayWithinYear | src/components/tools/timestamp-converter/TimestampConverter.tsx:84-87 | the offset of a day within its year is below the year's length |
| Timestamp.CivilFromDays | src/components/tools/timestamp-converter/TimestampConverter.tsx:84-87 | the calendar date of a day number is a valid date that maps back to the same day number |
| Timestamp.CivilRoundTrip | src/components/tools/timestamp-converter/TimestampConverter.tsx:40 | a valid calendar date maps to a day number whose calendar date is itself |
| Timestamp.TimeClip | src/components/tools/timestamp-converter/TimestampConverter.tsx:42 | a time value is kept exactly when it is at most 8.64e15 ms from the epoch, and is invalid otherwise |
| Timestamp.DateUtcOfCivil | src/components/tools/timestamp-converter/TimestampConverter.tsx:40 | `Date.UTC` of a valid date from year 100 on, with hour and minute and a time value in range, is its day number in milliseconds plus the hours and minutes |
| Timestamp.NumbersOf | src/components/tools/timestamp-converter/TimestampConverter.tsx:37-38 | `map(Number)` gives one number per piece |
| Timestamp.PaddedDigits | src/components/tools/timestamp-converter/TimestampConverter.tsx:87 | a zero-padded field is width decimal digits that read back as the number |
| Timestamp.IsoDateShape | src/components/tools/timestamp-converter/TimestampConverter.tsx:87 | the date part of `toISOString()` for a four-digit year is ten characters, digits with '-' at 4 and 7, and holds no 'T' |
| Timestamp.IsoClockShape | src/components/tools/timestamp-converter/TimestampConverter.tsx:87 | the time part is eight characters, digits with ':' at 2 and 5, and holds no 'T' |
| Timestamp.DisplayShape | src/components/tools/timestamp-converter/TimestampConverter.tsx:87 | date, a space and the clock form the displayed `YYYY-MM-DD HH:MM:SS` text |
| Timestamp.SliceAndReplace | src/components/tools/timestamp-converter/TimestampConverter.tsx:87 | `slice(0, 19).replace('T', ' ')` of an ISO string is its date, a space and its clock |
| Timestamp.JstTextShape | src/components/tools/timestamp-converter/TimestampConverter.tsx:84-87 | for an instant between -1e12 and 1e13 ms the shifted date lies in years 1900..2299 and the text is the calendar date and clock of the instant plus nine hours |
| Timestamp.DigitCountRange | src/components/tools/timestamp-converter/TimestampConverter.tsx:69-74 | below 10^21, a number printed with 10 characters lies in (−1e9, 1e10) and one printed with 13 in (−1e12, 1e13) |
| Timestamp.TimestampUnits | src/components/tools/timestamp-converter/TimestampConverter.tsx:69-82 | a number printed with 10 characters is seconds and one with 13 is milliseconds, unless it is 10^21 or more and printed in exponent form, which gives the invalid-timestamp error; any other length is the digit-count error; every accepted instant is in range |
| Timestamp.JstTextIsDisplay | src/components/tools/timestamp-converter/TimestampConverter.tsx:79-87 | every instant between −1e12 and 1e13 ms is a valid date, and its text has the displayed form |
| Timestamp.TimestampOutcomes | src/components/tools/timestamp-converter/TimestampConverter.tsx:57-88 | empty input and non-numbers are rejected with their messages; a number converts exactly when it prints with 10 or 13 characters and is below 10^21; with 10 or 13 characters from 10^21 on it is the invalid-timestamp error; success has the displayed form; every failure is one of the four messages |
| Timestamp.DigitsHoldNoSeparator | src/components/tools/timestamp-converter/TimestampConverter.tsx:36-38 | digit strings hold none of the separators 'T', '-' and ':' |
| Timestamp.SplitTwoFields | src/components/tools/timestamp-converter/TimestampConverter.tsx:36-38 | two digit fields joined by a separator split back into those fields |
| Timestamp.DateFields | src/components/tools/timestamp-converter/TimestampConverter.tsx:36-37 | a printed date splits on '-' into its three padded fields and holds no 'T' |
| Timestamp.LocalInputPieces | src/components/tools/timestamp-converter/TimestampConverter.tsx:34-38 | a `date T hh:mm` input contains 'T' and splits into the date and the clock, and the clock into hours and minutes |
| Timestamp.NumberOfPadded | src/components/tools/timestamp-converter/TimestampConverter.tsx:37-38 | `Number` of a padded field is the number |
| Timestamp.LocalArgumentsOfFields | src/components/tools/timestamp-converter/TimestampConverter.tsx:36-40 | the fields read from the pieces are the arguments of `Date.UTC`, the month less one and the hour less nine |
| Timestamp.LocalInstantOfInput | src/components/tools/timestamp-converter/TimestampConverter.tsx:34-40 | the input built from a date and a clock is read as `Date.UTC` of that date with the hour shifted back nine hours |
| Timestamp.DaysOfFourDigitYears | src/components/tools/timestamp-converter/TimestampConverter.tsx:40 | the day numbers of four-digit years stay far inside the time-value range |
| Timestamp.LocalDatetimeReading | src/components/tools/timestamp-converter/TimestampConverter.tsx:26-54 | a `YYYY-MM-DDTHH:MM` input for a date from year 100 on is read as Japan time and converts to the whole seconds of that instant |
| Timestamp.JstFieldsOfSeconds | src/components/tools/timestamp-converter/TimestampConverter.tsx:84-87 | a count of seconds for a day, hour and minute in Japan time, shifted by nine hours, falls on that day at that hour and minute with zero seconds |
| Timestamp.SecondsShowAsDatetime | src/components/tools/timestamp-converter/TimestampConverter.tsx:57-88 | a 10-digit count of seconds for a date and clock in Japan time is shown as that date and clock with zero seconds |
| Timestamp.RoundTrip | src/components/tools/timestamp-converter/TimestampConverter.tsx:26-88 | converting an input in years 100..9999 to a 10-character timestamp and back shows the same date and clock with zero seconds |
| Timestamp.DatetimeOutcomes | src/components/tools/timestamp-converter/TimestampConverter.tsx:26-54 | empty input is rejected; with a 'T' it converts exactly when the fields give a valid instant, to the seconds it floors to, else the example-format error; without one it converts exactly when the host's time value is within 8.64e15 ms, else the format error; every result is within ±8.64e12 seconds |
| Timestamp.FallbackIsNoConverterMessage | src/components/tools/timestamp-converter/TimestampConverter.tsx:107 | the generic fallback message differs from every converter message |
| Timestamp.ConversionFailures | src/components/tools/timestamp-converter/TimestampConverter.tsx:91-110 | a failed conversion shows one of the converter's own messages, never the fallback |
| Timestamp.ConversionResults | src/components/tools/timestamp-converter/TimestampConverter.tsx:97-103 | the timestamp result is the printed seconds, which parseInt reads back; the datetime result has the displayed form |
| Timestamp.Converter.constructor | src/components/tools/timestamp-converter/TimestampConverter.tsx:14-23 | the converter starts in datetime-to-timestamp mode with empty inputs, no result and no error |
| Timestamp.Converter.SetDatetimeInput | src/components/tools/timestamp-converter/TimestampConverter.tsx:207 | typing a datetime replaces that input and nothing else |
| Timestamp.Converter.SetTimestampInput | src/components/tools/timestamp-converter/TimestampConverter.tsx:220 | typing a timestamp replaces that input and nothing else |
| Timestamp.Converter.HandleConvert | src/components/tools/timestamp-converter/TimestampConverter.tsx:91-110 | the inputs and mode are kept; success shows the result and clears the error, failure clears the result and shows the message |
| Timestamp.Converter.HandleModeChange | src/components/tools/timestamp-converter/TimestampConverter.tsx:159-165 | the switch picks the mode and clears the result, the error and both inputs |
| Timestamp.DisplayOfIsoString | src/components/tools/timestamp-converter/TimestampConverter.tsx:87 | for a four-digit year, the first 19 characters of toISOString with the 'T' replaced are the date, a space and the clock |
| Timestamp.ExponentTimestampIsInvalid | src/components/tools/timestamp-converter/TimestampConverter.tsx:62-82 | the 22 digits 12345·10^17 are read by parseInt, print as 1.2345e+21 with 10 characters, and are refused as an invalid timestamp, not for their digit count |
| Timestamp.MakeDayOfCivil | src/components/tools/timestamp-converter/TimestampConverter.tsx:40 | MakeDay of a valid date from year 100 on, with its month less one, is the date's day number |
| Timestamp.LocalInstantOfCivil | src/components/tools/timestamp-converter/TimestampConverter.tsx:34-40 | an input in years 100..9999 contains 'T' and reads as the instant of its date and clock less nine hours |
| Timestamp.DateUtcOfFourDigitYear | src/components/tools/timestamp-converter/TimestampConverter.tsx:40 | `Date.UTC` of a date in years 100..9999 at an hour from −9 to 23 is its day number in milliseconds plus the hours and minutes |
| Timestamp.InstantBound | src/components/tools/timestamp-converter/TimestampConverter.tsx:40-42 | a day number within a few million of the epoch and a clock within a day of it give a time value within 8.64e15 ms |
| Timestamp.DateUtcOfTwoDigitYear | src/components/tools/timestamp-converter/TimestampConverter.tsx:40 | `Date.UTC` takes the years 0..99 for 1900..1999 |
| Timestamp.TwoDigitInstant | src/components/tools/timestamp-converter/TimestampConverter.tsx:34-40 | an input in year y < 100 reads as `Date.UTC` of the same date in 1900 + y |
| Timestamp.TwoDigitYearShift | src/components/tools/timestamp-converter/TimestampConverter.tsx:26-54 | an input in year y < 100 converts exactly like the same date and clock in 1900 + y |
| Timestamp.TwoDigitYearSeconds | src/components/tools/timestamp-converter/TimestampConverter.tsx:26-54 | such an input converts to the seconds of the same date and clock in 1900 + y |
| Timestamp.TwoDigitYearRoundTrip | src/components/tools/timestamp-converter/TimestampConverter.tsx:26-88 | so below the year 100 the round trip fails: a 10-character timestamp comes back as the date in 1900 + y, which differs from the input's date |
| Timestamp.TwoDigitYearExample | src/components/tools/timestamp-converter/TimestampConverter.tsx:26-88 | '0050-01-01T00:00' converts to −631184400, which comes back as 1950-01-01 00:00:00 |
| JsonFormat.BelowIrreflexive | src/components/tools/json-formatter/JsonFormatter.tsx:85 | no key sorts before itself under the default `sort()` order |
| JsonFormat.BelowTotal | src/components/tools/json-formatter/JsonFormatter.tsx:85 | any two different keys are ordered one way or the other |
| JsonFormat.BelowAsymmetric | src/components/tools/json-formatter/JsonFormatter.tsx:85 | two keys are never each before the other |
| JsonFormat.BelowTransitive | src/components/tools/json-formatter/JsonFormatter.tsx:85 | the order is transitive |
| JsonFormat.InsertPermutes | src/components/tools/json-formatter/JsonFormatter.tsx:85 | inserting a key into a sorted list adds exactly that key |
| JsonFormat.InsertAscending | src/components/tools/json-formatter/JsonFormatter.tsx:85 | inserting a new key into a strictly ascending list keeps it strictly ascending |
| JsonFormat.SortStringsCorrect | src/components/tools/json-formatter/JsonFormatter.tsx:84-85 | `Object.keys(obj).sort()` is a permutation of the keys, and strictly ascending when they are distinct |
| JsonFormat.SortStringsMembers | src/components/tools/json-formatter/JsonFormatter.tsx:84-85 | sorting keeps exactly the same keys |
| JsonFormat.SortStringsOfAscending | src/components/tools/json-formatter/JsonFormatter.tsx:85 | an already sorted key list is left as it is |
| JsonFormat.AscendingIsDistinct | src/components/tools/json-formatter/JsonFormatter.tsx:85 | a strictly ascending list has no repeated key and starts with its least key |
| JsonFormat.Keys | src/components/tools/json-formatter/JsonFormatter.tsx:84 | the keys of an object are its member names in order |
| JsonFormat.IndexOf | src/components/tools/json-formatter/JsonFormatter.tsx:87 | the position of a key is that of its first member |
| JsonFormat.SortedMembers | src/components/tools/json-formatter/JsonFormatter.tsx:86-89 | the rebuilt object has exactly the given keys, in the given order |
| JsonFormat.KeysOfAppend | src/components/tools/json-formatter/JsonFormatter.tsx:87 | assigning a new key appends it to the object's keys |
| JsonFormat.DistinctTail | src/components/tools/json-formatter/JsonFormatter.tsx:86-89 | the keys after the first of a distinct list are distinct and do not repeat it |
| JsonFormat.SortedMembersCons | src/components/tools/json-formatter/JsonFormatter.tsx:86-88 | the first rebuilt member is the first key with its value sorted recursively |
| JsonFormat.FoldAppends | src/components/tools/json-formatter/JsonFormatter.tsx:86-89 | the `reduce` over distinct new keys appends one member per key, in key order, each value sorted recursively |
| JsonFormat.IndexOfDistinct | src/components/tools/json-formatter/JsonFormatter.tsx:87 | with distinct keys, looking a member's key up finds that member |
| JsonFormat.SortObjectMembers | src/components/tools/json-formatter/JsonFormatter.tsx:84-89 | sortObjectKeys of an object is its members rebuilt in sorted key order |
| JsonFormat.SortKeysPrimitive | src/components/tools/json-formatter/JsonFormatter.tsx:76-78 | null, booleans, numbers and strings are returned unchanged |
| JsonFormat.SortKeysArray | src/components/tools/json-formatter/JsonFormatter.tsx:80-82 | an array keeps its length and order, each element sorted recursively |
| JsonFormat.SortKeysObject | src/components/tools/json-formatter/JsonFormatter.tsx:84-89 | an object keeps the same keys, now strictly ascending, and each value is the original value sorted recursively |
| JsonFormat.SortKeysSorts | src/components/tools/json-formatter/JsonFormatter.tsx:75-90 | after sortObjectKeys every object at every depth has strictly ascending keys |
| JsonFormat.SortKeysOfSorted | src/components/tools/json-formatter/JsonFormatter.tsx:75-90 | a value whose objects are all sorted is left unchanged |
| JsonFormat.SortKeysIdempotent | src/components/tools/json-formatter/JsonFormatter.tsx:75-90 | sorting twice is sorting once |
| JsonFormat.IndentValue | src/components/tools/json-formatter/JsonFormatter.tsx:46-53 | compact means no indent, else tabs mean a tab, else the chosen number of spaces |
| JsonFormat.PreparedValue | src/components/tools/json-formatter/JsonFormatter.tsx:42-44 | without sortKeys the parsed value is printed as it is; with it, a value whose objects are all key-sorted |
| JsonFormat.Formatter.constructor | src/components/tools/json-formatter/JsonFormatter.tsx:27-36 | the formatter starts empty with indent 4, spaces, unsorted and not compact |
| JsonFormat.Formatter.FormatJson | src/components/tools/json-formatter/JsonFormatter.tsx:38-73 | a parse failure leaves the output and shows one error at line 0, column 0 with the parser's message; success prints the prepared value with the chosen indent and clears the errors |
| JsonFormat.Formatter.SetJsonInput | src/components/tools/json-formatter/JsonFormatter.tsx:118 | the editor's value, or "" when it has none, becomes the input |
| JsonFormat.Formatter.SetIndentSize | src/components/tools/json-formatter/JsonFormatter.tsx:157 | only the indent size changes |
| JsonFormat.Formatter.SetUseTabs | src/components/tools/json-formatter/JsonFormatter.tsx:173 | only the tab option changes |
| JsonFormat.Formatter.SetSortKeys | src/components/tools/json-formatter/JsonFormatter.tsx:182 | only the sort option changes |
| JsonFormat.Formatter.SetCompact | src/components/tools/json-formatter/JsonFormatter.tsx:191 | only the compact option changes |
| JsonFormat.SortedKeyList | src/components/tools/json-formatter/JsonFormatter.tsx:85 | sorting distinct keys keeps exactly those keys, in strictly ascending order without repeats |
| JsonFormat.FoldFromEmpty | src/components/tools/json-formatter/JsonFormatter.tsx:84-89 | rebuilding from the empty object over distinct keys of the object gives its members in that key order |
| ImageConvert.FileAcceptance | src/components/tools/image-converter/ImageConverter.tsx:26-35 | a file is read exactly when its type starts with 'image/' and it is at most 5 MiB; a non-image gets the type error whatever its size, a large image the size error |
| ImageConvert.SizeLimitBoundary | src/components/tools/image-converter/ImageConverter.tsx:32 | exactly 5 MiB is allowed and one byte more is not |
| ImageConvert.AlphabetRun | src/components/tools/image-converter/ImageConverter.tsx:69 | the run is the longest prefix of the Base64 alphabet |
| ImageConvert.RunEndsAtSplit | src/components/tools/image-converter/ImageConverter.tsx:69 | wherever the pattern splits the text, the alphabet run ends there |
| ImageConvert.MatchesBase64Iff | src/components/tools/image-converter/ImageConverter.tsx:69 | the test accepts exactly the texts made of alphabet characters followed by at most two '=' |
| ImageConvert.Base64InputOutcomes | src/components/tools/image-converter/ImageConverter.tsx:57-74 | blank text is blank; text already naming an image data URL is tried as it is; other text is tried with the PNG prefix exactly when it matches; every candidate is an image data URL |
| ImageConvert.Converter.constructor | src/components/tools/image-converter/ImageConverter.tsx:12-16 | no file, no output, no input, no preview and no error |
| ImageConvert.Converter.HandleFileSelect | src/components/tools/image-converter/ImageConverter.tsx:21-50 | no file changes nothing; a rejected file sets its error; an accepted file clears the error, is remembered and is read |
| ImageConvert.Converter.OnFileRead | src/components/tools/image-converter/ImageConverter.tsx:41-44 | the data URL read becomes both the output and the preview |
| ImageConvert.Converter.OnFileReadError | src/components/tools/image-converter/ImageConverter.tsx:45-47 | a failed read shows the read error |
| ImageConvert.Converter.HandleBase64Input | src/components/tools/image-converter/ImageConverter.tsx:53-87 | the text is kept and the error cleared; blank text clears the preview; text failing the pattern shows the error and clears the preview; other text is handed to the image test |
| ImageConvert.Converter.OnImageLoad | src/components/tools/image-converter/ImageConverter.tsx:79-82 | an image that loads becomes the preview |
| ImageConvert.Converter.OnImageError | src/components/tools/image-converter/ImageConverter.tsx:83-86 | an image that fails to load clears the preview and shows the not-an-image error |
| ColorUtils.Clamp | src/lib/colorUtils.ts:6-7 | the result is in [0, 100], the value itself when already there, else the bound it overshot |
| ColorUtils.ValidateHsl | src/lib/colorUtils.ts:4-10 | the hue is reduced into [0, 360) as h mod 360; saturation and lightness are in [0, 100] and unchanged when already there |
| ColorUtils.HuePeriodic | src/lib/colorUtils.ts:5 | hues a whole number of turns apart normalise alike |
| ColorUtils.ValidateNormal | src/lib/colorUtils.ts:4-10 | a triple already in range is its own normalisation |
| ColorUtils.ValidateIdempotent | src/lib/colorUtils.ts:4-10 | normalising twice is normalising once |
| ColorUtils.Sector | src/lib/colorUtils.ts:21 | k(n) lies in [0, 12) |
| ColorUtils.ScaledWithin | src/lib/colorUtils.ts:22-23 | a share s of m scaled by a factor in [-1, 1] stays within m of zero |
| ColorUtils.LevelWithin | src/lib/colorUtils.ts:22-23 | l − s·min(l, 1 − l)·c lies in [0, 1] |
| ColorUtils.Level | src/lib/colorUtils.ts:21-23 | f(n) is a level in [0, 1] |
| ColorUtils.Channel | src/lib/colorUtils.ts:26-28 | every rounded channel is in [0, 255] |
| ColorUtils.HslToRgb | src/lib/colorUtils.ts:15-30 | any input triple, in range or not, gives three channels in [0, 255] |
| ColorUtils.HslToRgbNormalises | src/lib/colorUtils.ts:16 | the conversion depends only on the normalised triple |
| ColorUtils.Primaries | src/lib/colorUtils.ts:15-30 | full saturation at half lightness gives pure red, green and blue at hues 0, 120 and 240 |
| ColorUtils.Achromatic | src/lib/colorUtils.ts:18-29 | without saturation all three channels are the same grey, 255 times the lightness rounded |
| ColorUtils.BlackAndWhite | src/lib/colorUtils.ts:18-29 | lightness 0 is black and lightness 100 white, whatever the hue and saturation |
| ColorUtils.RgbHexDigits | src/lib/colorUtils.ts:37-39 | the printed colour is '#' then the high and low lowercase hex digit of red, green and blue |
| ColorUtils.PairOfByte | src/lib/colorUtils.ts:37-39 | the two printed digits of a channel read back as the channel |
| ColorUtils.PairsOfDigits | src/lib/colorUtils.ts:37-39 | the seven characters of that layout read back as the three channels |
| ColorUtils.RgbHexRoundTrip | src/lib/colorUtils.ts:37-39 | the printed colour has seven characters starting with '#', and its three pairs read back as the channels |
| ColorUtils.HexMatchesRgb | src/lib/colorUtils.ts:35-40 | hslToHex prints exactly the channels hslToRgb computes for the same triple, and reading them back gives those channels |
| ColorPalette.ComplementaryInvolution | src/components/tools/color-picker/ColorPalette.tsx:15-17 | for a non-negative hue the complement is in [0, 360), half a turn away, and the complement of the complement is the hue mod 360 |
| ColorPalette.ComplementaryOfNegative | src/components/tools/color-picker/ColorPalette.tsx:16 | a hue below −180 keeps its sign through the truncating `%`: the complement of −200 is −20 |
| ColorPalette.AnalogousHues | src/components/tools/color-picker/ColorPalette.tsx:19-21 | for a non-negative hue there are two analogous hues, both in [0, 360), 30 degrees either side of the hue mod 360 |
| ColorPalette.MonochromaticVariants | src/components/tools/color-picker/ColorPalette.tsx:23-30 | four variants, each keeping the hue and changing only saturation or only lightness: up by 20 capped at 100, down by 20 floored at 0 |
| ColorPalette.MonochromaticInRange | src/components/tools/color-picker/ColorPalette.tsx:23-30 | for an in-range colour all four variants are in range |
| ColorPalette.SelectionConsistent | src/components/tools/color-picker/ColorPalette.tsx:33-40 | nothing is sent without a callback; with one, the triple passes through unchanged, the channels are those of the normalised triple, and the hex text reads back as those channels |
| ColorUtils.SectorBelowTwoTurns | src/lib/colorUtils.ts:21 | below 24, `(n + h / 30) % 12` subtracts 12 at most once |
| ColorUtils.SectorsOf | src/lib/colorUtils.ts:21 | for hues up to 240, k(0) is h / 30, and k(8) and k(4) are 8 + h / 30 and 4 + h / 30, less 12 once past 12 |
| ColorUtils.FullSaturationLevel | src/lib/colorUtils.ts:22-23 | at full saturation and half lightness f(n) is 1 where k(n) is 0 and 0 where k(n) is 4 or 8 |
| ColorUtils.PrimaryChannels | src/lib/colorUtils.ts:21-28 | at full saturation and half lightness a channel is 255 where its k(n) is 0 and 0 where it is 4 or 8 |
| ColorUtils.UnsaturatedLevel | src/lib/colorUtils.ts:22-23 | with saturation 0 the share a vanishes and f(n) is the lightness as a fraction |
| ColorUtils.ExtremeLevel | src/lib/colorUtils.ts:22-23 | at lightness 0 or 100, min(l, 1 - l) is 0 and f(n) is the lightness as a fraction |
| ColorPalette.ForwardAndBack | src/components/tools/color-picker/ColorPalette.tsx:19-21 | turning a non-negative hue by d and then by 360 - d passes through a hue in [0, 360) and gives back the hue mod 360 |

## Left out

- Timestamp.RoundTrip: holds for years 100..9999 only. `Date.UTC` reads the years 0..99 as 1900..1999, so below the year 100 the timestamp comes back in 1900 + y (Timestamp.TwoDigitYearShift, Timestamp.TwoDigitYearRoundTrip). A 10-character timestamp lies in the years 1938..1966 or 2001..2286, so no input above 9999 meets the lemma's conditions.
- Canvas drawing, image download, the clipboard, `setTimeout` and the copy buttons of every tool: these are I/O with no logic to state.
- QR: Reed–Solomon coding, mask penalty scoring, alignment and version patterns, and the 0x5412 format mask. The code has none of them, so the model has none either.
- MD5's constant table is computed in the code with `Math.sin` (floating point). The model uses the table of section 3.4 of RFC 1321, which that computation yields.
- The SHA branches of calculateHash call `crypto.subtle.digest`, a platform function, so the model gives no result for them. `TextEncoder` is taken to give the message bytes.
- Password: `crypto.getRandomValues` becomes a parameter, a sequence of random bytes. Running out of that sequence is an outcome of the model only; the browser never runs out.
- Password.BytesNeeded: `Math.ceil(Math.log2(range) / 8)` is modelled only for ranges 1 to 256. Every call site draws from at most 256 values.
- Password: the 32-bit `<<` of the byte accumulation is modelled as exact arithmetic. This is exact for the at most one byte ever drawn.
- Password: the length slider's `parseInt` handler stores any parsed length without a check, and it is left out; the generate button's guard is modelled.
- Password: `UniqueCount` counts distinct characters (Unicode scalar values) where JavaScript's `Set` of a string counts UTF-16 code units. The two differ only outside the Basic Multilingual Plane.
- Timestamp: the branch for input without 'T' hands the text to the platform's `new Date(string)`. The platform's parse of the text is the parameter `hostParse`, which the model clips as `new Date` does.
- Timestamp: the current-time handler reads the clock and is left out.
- Timestamp: `Number` is modelled on decimal integer forms only: optional white space and decimal digits. Its hexadecimal, fraction, exponent and `Infinity` forms are not modelled. `parseInt` is modelled in full for integers, its 0x/0X prefix included.
- Timestamp: `toString()` switches to exponent form from 10^21 on. The model prints that form from the exact integer. A double cannot hold every integer above 2^53, so the rounding of such a number and the shortest digit string that `toString()` picks for it are not modelled.
- JsPrims.ParseIntOfNumberToString: holds only below 10^21. From there on parseInt reads back the first digit (JsPrims.ParseIntOfExponentForm).
- Timestamp: the range check of MakeDay on its year and month arguments is not modelled. `Date.UTC` is modelled for all integer fields, and `TimeClip` bounds the result.
- JsonFormat: `JSON.parse` and `JSON.stringify` are platform functions and appear as parameters of `FormatJson`. JSON numbers are kept as reals.
- JsonFormat.SortKeys: a member named `__proto__` is lost in the source. The `result[key] = …` of the fold (JsonFormatter.tsx lines 86-88) on a plain `{}` calls the prototype setter for it, and no own member is created. The model keeps that member as it keeps every other.
- JsonFormat: JavaScript enumerates integer-like keys before the others whatever their insertion order; objects are modelled as ordered member lists without that rule.
- JsonFormat: `sort()` compares UTF-16 code units; the model compares characters, which agrees inside the Basic Multilingual Plane.
- ImageConvert: `FileReader` and `Image` complete asynchronously. Their `onload` and `onerror` handlers are separate methods of `Converter`.
- ImageConvert: the `catch` of handleBase64Input (ImageConverter.tsx lines 88-91) has nothing in its `try` that throws, so it is not modelled.
- ColorUtils.HslToRgb computes over exact rationals, while the code uses doubles. The model has no floating-point rounding at halfway points, so a channel could differ by one where a double lands just below a half.
- ColorUtils: inputs are integers; fractional HSL values from the sliders are not modelled.
- ColorPalette.ComplementaryInvolution and ColorPalette.AnalogousHues hold for non-negative hues only. A hue below −180 keeps its sign through the truncating `%` (ColorPalette.ComplementaryOfNegative).
- The colour picker's canvas widgets, the WCAG contrast check (`Math.pow`) and the timezone, Mermaid, encoder, HTML formatter and IP viewer tools are not part of this model.
