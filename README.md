# libt2: the DEFLATE decoder and the JSON scanner, in Dafny

This project models two parts of libt2 and proves properties of the model.

**The INFLATE decoder** (`t2_inflate.c`, and its header-only variant `t2_inflate.h`) decompresses a DEFLATE stream (RFC 1951). Its parts, leaves first:

- **The byte cursor `t2_z_buffer`** is `Cursor.Buffer`: an array with a position. Its methods read a byte, write a byte, copy from another buffer, and copy a back-reference within itself.
- **The bit reader** is `BitReading.BitReader`, a class over the input buffer that holds the current byte and its bits left.
  - `BitReader.Stream()` is the sequence of bits it will still deliver.
  - Above the reader, every stage is a function over that bit sequence: `Bits.ReadBits`, `Huffman.Decode`, `Lookup.LengthOf`, `Dynamic.DynamicCodes`, `Inflating.Block` and `Inflating.Inflate`.
  - Each stage also has a method over the reader and the buffers. The method's `ensures` ties its result and the new stream to that function.
- **Canonical Huffman tables** follow section 3.2.2 of RFC 1951.
  - `Huffman.Canonical` is the table built from a list of code lengths.
  - `Huffman.BuildTable` builds it with the source's two loops.
  - `Huffman.Decode` decodes one symbol, bit by bit.
- **The length and distance lookups** follow section 3.2.5 (`Lookup`).
- **The dynamic-code header** follows section 3.2.7 (`Dynamic`).
- **The fixed codes** follow section 3.2.6 (`Fixed`). The model covers the hand-written table of `t2_inflate.c` and the lazily built one of `t2_inflate.h`.
- **The block decoder and driver** follow sections 3.2.3 and 3.2.4 (`Inflating`).
- `InflateProperties` holds the round trips and the test vector of `t2_inflate.c`.

**The JSON scanner** of `t2_json.c` works on a NUL-terminated string, modelled as a `seq<char>` that ends in NUL plus a cursor index.

- `Cesu` is the CESU-8 writer.
- `Hex` parses hex digits.
- `JsonScan` holds blank skipping, token classification, skipping a string, unescaping a string, and an encoder that is the unescaper's partner.
- `JsonParser.Parser` is the `t2_json_t` object: a cursor, the 10-slot stack of restore points, and the sticky error flag.
- `JsonEscaping` and `JsonStrings` hold the round trips and error cases.
- `JsonFindings` holds two places where the code does not do what it says.

**Errors instead of process exit.** Every `t2_d_die` or failed `t2_d_assert`, and every failed `assert` in the hex and string code of `t2_json.c`, is an `Err` of `Common.Error`. So is every out-of-bounds access that C leaves undefined, with two exceptions, both left out (see below): the `assert(false)` of `breq` (t2_json.c:53-55), and the fixed capacity of the buckets of a Huffman table (t2_inflate.c:119, 220).

**Where the source contradicts its comments or RFC 1951, the model follows the comment or the RFC.**

- **First codes.** The first-code loop runs up to and including the longest length. The source's loop stops before it (t2_inflate.c:228, t2_inflate.h:230). The hand-written table's `first_code` 0x190 for length 9 (t2_inflate.c:356) needs the inclusive loop.
- **Back-reference copy.** Bytes are copied one at a time, so an overlapping copy repeats what it has just written, and the output position advances once (`Cursor.Repeat`, `Cursor.Buffer.CopyBack`). The source uses `memmove` and advances the same cursor twice (t2_inflate.c:28-30, 481).
- **Decode order of a pair.** The length's extra bits are read before the distance code, as in section 3.2.5. The source reads the distance first (t2_inflate.c:473-480, t2_inflate.h:429-432).
- **Length table.** The length table is the one in section 3.2.5. The source has wrong bases for symbols 270-274 (t2_inflate.c:402-406), and the arithmetic at t2_inflate.h:360-376 wraps around.
- **Distance codes.** The distance code is decoded with the block's distance table.
  - Fixed blocks use the 5-bit fixed distance code of section 3.2.6, and `Fixed.FixedDistanceDecode` proves it is the five raw bits most significant first.
  - t2_inflate.c:474 reads those five bits with the reader's other bit order.
  - t2_inflate.h:429 reads raw bits even for dynamic blocks.
- **Dynamic header, as in section 3.2.7** (t2_inflate.c:243-317, and the same reader at t2_inflate.h:245-319). The source indexes the lengths with a `uint8_t` `i < count` (t2_inflate.c:247), keeps 18 code-length slots (t2_inflate.c:297), and reads the literal/length and distance lengths separately (t2_inflate.c:313-314). In the model:
  - the literal/length and distance code lengths are one sequence of HLIT + 257 + HDIST + 1 entries;
  - the index is unbounded;
  - the repeat ops advance it by exactly the run;
  - a run past the end of the sequence is an error;
  - the code-length code has 19 slots.
- **Buffer bounds.** The checks are `<=`: the last byte of the output can be written, and the last byte of the input can be read. The source's strict `<` at t2_inflate.c:26-27, 34 excludes it.
- **Bad distance.** A back-reference further back than the output so far is `InvalidDistance`; in C this reads before the buffer.

**Kept as written:**

- **Bit order of a multi-bit read.** Groups read earlier become the higher bits of the value (t2_inflate.c:75), and the source's own bit-reader test relies on it. Section 3.1.1 of RFC 1951 puts them lower.
- **LEN and NLEN.** Because of that bit order, a stored block's LEN and NLEN are read big-endian. `InflateProperties.StoredFrame` writes them that way.

**JSON, as written or close to it:**

- `breq`'s `assert(false)` on a miss (t2_json.c:53-55) is compiled in when `T2_JSON_DEBUG` is set, and t2_json.h:12 sets it. In that build a missed `breq` or `jreq` ends the process, and the sticky error flag is never reached. The model follows the build with `T2_JSON_DEBUG` off: `breq` returns false and `jreq` sets the flag.
- No character of the text can be read past the terminating NUL. `get_string` does so in C on an unclosed string, a trailing backslash or a short `\u` escape; the model returns an error and leaves the cursor where it was.
- The unescaping properties whose proof relates `chomp_string` and `get_string` require the opening delimiter to be a quote, `"` or `'`: `get_string` is only reached on a STRING token. With a hex digit as delimiter the two disagree on `\u`.

`tok` and `t2_json_restore` are listed under Findings: the model holds both the behaviour as written and the evident intent.

## Model

| member | source | states |
|---|---|---|
| Cursor.Repeat | t2_inflate.c:481 | a back-reference of `length` at `distance` keeps the output and appends exactly `length` bytes |
| Cursor.RepeatCopies | t2_inflate.c:481 | every byte a back-reference appends equals the byte `distance` places before it |
| Cursor.RepeatUnique | t2_inflate.c:481 | any extension of the output whose new bytes each equal the byte `distance` back is that back-reference |
| Cursor.RepeatNoOverlap | t2_inflate.c:28 | a copy no longer than its distance appends a plain slice of the output, as `memmove` would |
| Cursor.RepeatRun | t2_inflate.c:481 | a back-reference at distance 1 repeats the last byte |
| Cursor.Buffer.constructor | t2_inflate.c:17-21 | a buffer over the array at the given position |
| Cursor.Buffer.ReadByte | t2_inflate.c:38-41 | fails (BufferExhausted) exactly at the end of the data; otherwise returns `data[position]` and advances by one |
| Cursor.Buffer.WriteByte | t2_inflate.c:33-36 | stores the byte at the position and advances by one, no other byte changing; fails (BufferOverflow) at the end, changing nothing |
| Cursor.Buffer.CopyFrom | t2_inflate.c:25-31 | copies `length` bytes from the other buffer's position to this one's, no other byte changing, and advances both positions by `length`; BufferExhausted when the source lacks them, BufferOverflow when there is no room, changing nothing |
| Cursor.Buffer.CopyBack | t2_inflate.c:25-31 | the bytes so far become Repeat of them at `distance`, the bytes after are unchanged and the position advances once by `length`; InvalidDistance for a distance outside 1..position, BufferOverflow without room, changing nothing |
| Bits.BytesRoundTrip | t2_inflate.c:43-45 | a byte sequence survives the trip into the bit stream, low bit first, and back |
| Bits.MsbRoundTrip | t2_inflate.c:172-174 | a k-bit code written most significant bit first reads back as the code mod 2^k |
| Bits.MsbBitsOfValue | t2_inflate.c:172-174 | any bits are the k-bit code of their own most-significant-first value |
| Bits.ShiftInValue | t2_inflate.c:182 | `code = code << 1 \| bit` over more bits gives the value of the longer prefix |
| Bits.ReadBits | t2_inflate.c:61-83 | an n-bit read succeeds iff n <= 64 and n bits remain; it consumes exactly n bits and yields a value below 2^n; otherwise TooManyBits or BufferExhausted |
| Bits.ReadGroupsBound | t2_inflate.c:72-79 | the grouped read of n bits is below 2^n |
| Bits.ReadOneBit | t2_inflate.c:61-83 | a 1-bit read yields the next bit of the stream |
| Bits.ReadInside | t2_inflate.c:72-79 | a read within the current byte takes its low bits and shifts the byte right |
| Bits.ReadAcross | t2_inflate.c:75 | a read past the current byte puts its remaining bits above the bits of the following bytes |
| Bits.ReadTwoBytes | t2_inflate.c:75 | a 16-bit read of two whole bytes c, d is c * 256 + d |
| Bits.SixReads | t2_inflate.c:564-575 | reads of 8, 4, 4, 16, 12 and 4 bits from six bytes give byte 0, the low and the high half of byte 1, bytes 2-3 high byte first, byte 4 above the low half of byte 5, and the high half of byte 5 |
| Bits.BitReaderVector | t2_inflate.c:554-578 | from "A\xF7\x12\x34\x56\x78" those reads yield 'A', 0x07, 0x0F, 0x1234, 0x0568 and 0x7 |
| BitReading.BitReader.constructor | t2_inflate.c:538 | a reader with no current byte: its stream is the bits of the buffer from its position |
| BitReading.BitReader.Flush | t2_inflate.c:57-59 | bits left becomes 0, the buffer position is unchanged, and the stream drops the rest of the current byte |
| BitReading.BitReader.Fetch | t2_inflate.c:67-70 | with no bits left, fetches the next byte (bits left 8) iff the stream is not empty; the stream is unchanged |
| BitReading.BitReader.Turn | t2_inflate.c:72-79 | takes k = min(n, bits left) bits off the current byte and the stream loses them; the value, shifted up by n - k, plus the read of the remaining n - k bits, is the whole n-bit read |
| BitReading.BitReader.Step | t2_inflate.c:66-80 | one iteration of the read loop consumes at least one bit and keeps the value the read will have |
| BitReading.BitReader.Read | t2_inflate.c:61-83 | returns ReadBits of the old stream: the same success, value and error, and the stream loses exactly n bits |
| Huffman.MinLength | t2_inflate.c:204-225 | the shortest nonzero code length, within 1..16 |
| Huffman.Canonical | t2_inflate.c:201-235 | the table of section 3.2.2 from a list of code lengths, with 15 buckets |
| Huffman.Build | t2_inflate.c:201-235 | succeeds iff every code length is at most 15, and then is the canonical table |
| Huffman.SymbolsInMembers | t2_inflate.c:208-219 | a bucket holds exactly the symbols of its length; symbols of length 0 appear in none |
| Huffman.SymbolsInAscending | t2_inflate.c:208-219 | a bucket lists its symbols in strictly ascending order |
| Huffman.SymbolsInCount | t2_inflate.c:217-219 | a bucket's size is the number of symbols of that length |
| Huffman.LengthBounds | t2_inflate.c:221-224 | min_length and max_length are the extreme nonzero lengths, both attained; 16 and 0 when all lengths are 0 |
| Huffman.FirstCodeGrowth | t2_inflate.c:228-232 | first_code(L) >= (first_code(j) + num_codes(j)) << (L - j) for lengths j < L |
| Huffman.CanonicalBucket | t2_inflate.c:228-232 | bucket L of the canonical table is first_code(L) with the symbols of length L |
| Huffman.CodeBits | t2_inflate.c:179-180 | the code of symbol s as exactly as many bits as its length |
| Huffman.PrefixOutside | t2_inflate.c:179 | any shorter prefix of a symbol's code lies above every code of that shorter length |
| Huffman.CodeValue | t2_inflate.c:179-180 | the bits of a symbol's code read back most significant first give the code |
| Huffman.CodeFits | t2_inflate.c:179 | a symbol's code lies in its length's range first_code .. first_code + num_codes - 1 and below 2^length |
| Huffman.DecodeAt | t2_inflate.c:176-186 | decoding from length `len` succeeds only at lengths 1..15, consuming bits |
| Huffman.Decode | t2_inflate.c:159-187 | a decode takes at least one bit of the stream |
| Huffman.DecodeAtPath | t2_inflate.c:176-186 | decoding follows bits that miss at every shorter length and hit at the last, ending on the hit's symbol |
| Huffman.DecodeAppend | t2_inflate.c:162-174 | a decode first accumulates min_length bits most significant first |
| Huffman.DecodeCodeBits | t2_inflate.c:159-187 | round trip: the canonical table decodes the code of any symbol, followed by anything, to that symbol and leaves the rest |
| Huffman.DecodeAtHit | t2_inflate.c:179-185 | a successful decode consumes a prefix of the bits and stops at a length whose bucket holds the code accumulated from them, returning that code's symbol |
| Huffman.CanonicalHit | t2_inflate.c:180 | a hit in the canonical table is exactly the code of the returned symbol |
| Huffman.DecodeReads | t2_inflate.c:159-187 | a successful decode consumes a prefix of at most 15 bits that is a code of the table |
| Huffman.DecodeSound | t2_inflate.c:159-187 | whatever the canonical table decodes is a symbol with a code, and the bits consumed are that code |
| Huffman.BuildTable | t2_inflate.c:201-235 | the two loops build exactly Build of the code lengths, failing on a length above 15 |
| Huffman.GroupSymbols | t2_inflate.c:207-225 | the first loop fails iff some length is above 15; otherwise it yields the extreme lengths and each length's symbols in ascending order |
| Huffman.SetFirstCodes | t2_inflate.c:227-232 | the second loop sets every first code, the longest length's included, giving the canonical buckets |
| HuffmanReading.ReadBit | t2_inflate.c:174 | takes the next bit of the stream, or fails (BufferExhausted) when it is empty |
| HuffmanReading.ReadCode | t2_inflate.c:172-174 | reads n bits most significant first iff n bits remain |
| HuffmanReading.ReadSymbol | t2_inflate.c:159-187 | returns Decode of the old stream, with the same success, symbol, remaining stream and error |
| Lookup.LengthRanges | t2_inflate.c:385-420 | every length symbol's range lies within 3..258; symbols 257..264 are 3..10 with no extra bits, 285 has none |
| Lookup.DistanceRanges | t2_inflate.c:422-456 | every distance symbol's range lies within 1..32768; symbols 0..3 are 1..4 with no extra bits |
| Lookup.LengthOf | t2_inflate.c:385-420 | fails outside 257..285 (InvalidLengthSymbol); 257..264 give 3..10 and 285 gives 258 with no bits read; otherwise base plus extra bits, within 3..258 |
| Lookup.DistanceOf | t2_inflate.c:422-456 | fails above 29 (InvalidDistanceSymbol); 0..3 give 1..4 with no bits read; otherwise base plus extra bits, within 1..32768 |
| Lookup.LengthsContiguous | t2_inflate.c:385-420 | the length ranges follow one another without gaps from 3, ending at 258 |
| Lookup.DistancesContiguous | t2_inflate.c:422-456 | the distance ranges follow one another without gaps from 1 to 32768 |
| Lookup.LengthSymbol | t2_inflate.c:385-420 | the encoder's direction: the symbol whose range holds a length 3..258 |
| Lookup.DistanceSymbol | t2_inflate.c:422-456 | the encoder's direction: the symbol whose range holds a distance 1..32768 |
| Lookup.LengthRoundTrip | t2_inflate.c:385-420 | every length 3..258 is decoded from its symbol and the extra bits of its offset |
| Lookup.DistanceRoundTrip | t2_inflate.c:422-456 | every distance 1..32768 is decoded from its symbol and the extra bits of its offset |
| Lookup.DecodeLength | t2_inflate.c:385-420 | returns LengthOf of the old stream and consumes exactly its extra bits |
| Lookup.DecodeDistance | t2_inflate.c:422-456 | returns DistanceOf of the old stream and consumes exactly its extra bits |
| Fixed.FixedLiteralLength | t2_inflate.h:333-336 | every fixed literal/length code length lies in 7..9 |
| Fixed.FixedLiteralSymbols | t2_inflate.c:326-372 | the fixed code's symbols of length 7 are 256..279, of length 8 are 0..143 then 280..287, of length 9 are 144..255 |
| Fixed.FixedLiteralExtremes | t2_inflate.c:325 | min_length 7 and max_length 9 |
| Fixed.FixedLiteralFirstCodes | t2_inflate.c:328-356 | first codes 0, 0x30 and 0x190 for lengths 7, 8 and 9 |
| Fixed.HandWrittenBucket | t2_inflate.c:326-372 | each bucket of the hand-written table is the canonical bucket of its length |
| Fixed.HandWrittenIsCanonical | t2_inflate.c:319-321 | the hand-written literal/length table is what the build makes from the fixed code lengths |
| Fixed.FixedLiteralCodes | t2_inflate.c:327-356 | the fixed code of each literal/length symbol is the one tabulated in section 3.2.6 |
| Fixed.CodesLow8 | t2_inflate.c:336-337 | symbols 0..143 have 8-bit codes 0x30 + s |
| Fixed.Codes9 | t2_inflate.c:355-356 | symbols 144..255 have 9-bit codes 0x190 + (s - 144) |
| Fixed.Codes7 | t2_inflate.c:327-328 | symbols 256..279 have 7-bit codes s - 256 |
| Fixed.CodesHigh8 | t2_inflate.c:336-351 | symbols 280..287 have 8-bit codes 0xC0 + (s - 280) |
| Fixed.FixedLiteralFits | t2_inflate.c:322-373 | the fixed literal/length code lengths give codes that fit their lengths |
| Fixed.FixedDistanceShape | t2_inflate.h:341-349 | all 32 distance symbols have length 5, first code 0, and fit |
| Fixed.FixedDistanceCode | t2_inflate.c:375-377 | the fixed code of distance symbol s is s in five bits, most significant first |
| Fixed.FixedDistanceRoundTrip | t2_inflate.h:341-349 | the fixed distance code of s, followed by anything, decodes to s |
| Fixed.FixedDistanceDecode | t2_inflate.c:473-474 | with the fixed distance code, the distance symbol is the next five bits most significant first |
| Fixed.FixedTables.constructor | t2_inflate.h:322-323 | the static tables start with `init` unset |
| Fixed.FixedTables.Get | t2_inflate.h:321-353 | returns the hand-written literal table and the fixed distance table and sets `init`; once `init` is set nothing changes |
| Dynamic.HclenOrderPermutation | t2_inflate.h:297 | the order 16, 17, 18, 0, 8, 7, ... lists each of the 19 code-length symbols exactly once |
| Dynamic.ClenLengths | t2_inflate.c:297-308 | the 19 code lengths of the code-length code after n fields, all at most 7 |
| Dynamic.ClenLengthsPlaces | t2_inflate.h:301-310 | field i is the length of the i-th symbol of the order; symbols past the HCLEN + 4 read stay 0 |
| Dynamic.RunOf | t2_inflate.h:266 | a run length is base plus the next `extra` bits, below base + 2^extra |
| Dynamic.RunOp | t2_inflate.h:257-280 | one op yields a run of 1 to 138 lengths that stays within the count, each at most 15 or the previous length; a longer run has at least 3 and is zeros or at most 6 copies of the previous length, which must exist |
| Dynamic.RunLengths | t2_inflate.c:247-279 | exactly `count` code lengths, extending the ones known, all at most 15 |
| Dynamic.LiteralOpsRoundTrip | t2_inflate.h:263-264 | code lengths written one plain op each are decoded back, with the rest of the stream left |
| Dynamic.Header | t2_inflate.h:289-291 | HLIT, HDIST and HCLEN are 5, 5 and 4 bits, or BufferExhausted |
| Dynamic.DynamicCodes | t2_inflate.h:286-319 | the codes of a dynamic block are well shaped and take at least the 26 bits of the header and the code-length code |
| Dynamic.CodesAfterHeader | t2_inflate.h:299-316 | after the header, yields well-shaped codes and consumes at least the twelve bits of four code-length fields |
| Dynamic.CodesWith | t2_inflate.c:313-314 | the lengths read with the code-length code yield well-shaped literal/length and distance codes, and the stream never grows |
| Dynamic.DynamicBuildsSucceed | t2_inflate.h:312 | the table builds of a dynamic header cannot fail |
| Dynamic.ReadClens | t2_inflate.c:297-308 | the HCLEN loop over a 19-slot array yields ClenLengths and consumes 3 bits per field, or BufferExhausted |
| Dynamic.ReadClen | t2_inflate.h:303-309 | one turn stores field i at its symbol's slot |
| Dynamic.ReadRunOp | t2_inflate.h:257-280 | returns RunOp of the old stream and consumes what it does |
| Dynamic.RunOpRepeat | t2_inflate.h:265-277 | op 16, 17 or 18 reads 2, 3 or 7 extra bits over base 3, 3 or 11, and is RunTooLong when the run would pass the count; 16 repeats the previous length, 17 and 18 give zeros |
| Dynamic.ReadRun | t2_inflate.h:266 | returns RunOf of the old stream and consumes its extra bits |
| Dynamic.FillRun | t2_inflate.h:268-277 | writes n copies of a length, advancing the index by exactly n |
| Dynamic.ReadRunLengths | t2_inflate.c:243-282 | returns RunLengths of the old stream and consumes what it does |
| Dynamic.ReadHeader | t2_inflate.h:289-291 | returns Header of the old stream |
| Dynamic.ReadCodesWith | t2_inflate.c:313-314 | returns CodesWith of the old stream |
| Dynamic.ReadCodesAfterHeader | t2_inflate.h:299-316 | returns CodesAfterHeader of the old stream |
| Dynamic.ReadDynamicCodes | t2_inflate.h:286-319 | returns DynamicCodes of the old stream: the same codes, remaining stream and error |
| Inflating.FixedCodes | t2_inflate.c:520 | the codes of a fixed block, the hand-written literal/length table with the fixed distance table, are well shaped |
| Inflating.MatchOf | t2_inflate.c:470-480 | a pair's length is at least 3 and its distance at least 1, read length first |
| Inflating.CopyMatch | t2_inflate.c:470-481 | a pair appends at least 3 bytes and keeps the output before them, within the buffer |
| Inflating.BlockStep | t2_inflate.c:461-484 | one symbol keeps the output as a prefix and consumes bits; the end-of-block symbol leaves the output as it was |
| Inflating.DecodeBlock | t2_inflate.c:458-486 | a block keeps the output so far as a prefix of its result, within the buffer |
| Inflating.StoredBytes | t2_inflate.c:518 | LEN whole bytes are appended iff there are that many and room for them; else BufferExhausted or BufferOverflow |
| Inflating.StoredBlock | t2_inflate.c:511-518 | a stored block keeps the output so far as a prefix of its result, and fails with the header's error, copying nothing, when the header fails |
| Inflating.StoredHeader | t2_inflate.c:513-516 | after the alignment, fewer than 32 bits is BufferExhausted; otherwise, with LEN and NLEN the two 16-bit fields, the header succeeds iff LEN + NLEN = 65535 (LEN is NLEN ^ 0xFFFF), giving LEN and the stream after both fields, and is LengthMismatch otherwise |
| Inflating.Block | t2_inflate.c:508-526 | a block type above 2 fails with InvalidBlockType; a block that decodes keeps the output so far as a prefix, within the buffer |
| Inflating.InflateBlocks | t2_inflate.c:504-531 | blocks until the final one keep the output as a prefix, within the buffer |
| Inflating.Inflate | t2_inflate.c:533-540 | the decompressed bytes fit the output buffer |
| Inflating.ReadPair | t2_inflate.c:473-480 | returns the length and distance of MatchOf and consumes what it does |
| Inflating.ReadMatch | t2_inflate.c:470-481 | writes CopyMatch of the old output and stream into the buffer; every byte after the output position is as before |
| Inflating.CopyPair | t2_inflate.c:481 | once a pair is read, the back-reference copy writes CopyMatch of the old output; every byte after the output position is as before |
| Inflating.ReadStep | t2_inflate.c:461-484 | one pass of the block loop does what BlockStep does to the output buffer and the stream; every byte after the output position is as before |
| Inflating.ReadCompressedBlock | t2_inflate.c:458-486 | the block loop writes DecodeBlock of the old output and stream; every byte after the output position is as before |
| Inflating.CopyStored | t2_inflate.c:518 | the stored copy writes StoredBytes of the old output and stream; every byte after the output position is as before |
| Inflating.ReadStoredBlock | t2_inflate.c:511-518 | the stored branch writes StoredBlock of the old output and stream; every byte after the output position is as before |
| Inflating.ReadStoredHeader | t2_inflate.c:513-516 | returns StoredHeader of the old stream and ends on a byte boundary |
| Inflating.ReadStoredLengths | t2_inflate.c:514-516 | LEN and NLEN from a reader on a byte boundary, as StoredHeader reads them |
| Inflating.ReadBlock | t2_inflate.c:511-526 | one block writes Block of its type on the old output and stream; every byte after the output position is as before |
| Inflating.InflateAll | t2_inflate.c:504-531 | the driver writes InflateBlocks of the old output and stream; every byte after the output position is as before |
| Inflating.InflateArrays | t2_inflate.c:533-540 | over two arrays, succeeds iff Inflate does, and the output array then starts with its bytes; it also returns their count, which the `void` source does not hand back; the output array after those bytes is as before |
| InflateProperties.StoredFrame | t2_inflate.c:514-516 | the encoder's direction: four bytes of LEN and NLEN followed by the data of a stored block |
| InflateProperties.ReadTwo | t2_inflate.c:514 | a 16-bit read of two whole bytes c, d yields c * 256 + d |
| InflateProperties.HeaderOf | t2_inflate.c:514-516 | a LEN with its complement NLEN reads as that LEN |
| InflateProperties.FrameHeader | t2_inflate.c:513-516 | the header of a stored frame reads the length of its data and leaves the data |
| InflateProperties.StoredAfterHeader | t2_inflate.c:511-518 | after a header reading LEN, a stored block copies LEN bytes |
| InflateProperties.StoredData | t2_inflate.c:518 | the data bytes are appended and the tail is left |
| InflateProperties.StoredRoundTrip | t2_inflate.c:511-518 | round trip: a stored block written by StoredFrame, with anything after it, appends exactly its data |
| InflateProperties.InflateStored | t2_inflate.c:504-540 | a stream of one final stored block decompresses to its data |
| InflateProperties.LiteralsRoundTrip | t2_inflate.c:458-486 | round trip: with any fitting literal/length code, the codes of some bytes and the end of block decode to those bytes after the output so far |
| InflateProperties.BlockGoesOn | t2_inflate.c:460-485 | a block goes on after a symbol that does not end it |
| InflateProperties.BlockFails | t2_inflate.c:460-485 | a block fails where one of its symbols fails |
| InflateProperties.BlockEnds | t2_inflate.c:468-469 | a block ends at the end-of-block symbol |
| InflateProperties.EndStep | t2_inflate.c:468-469 | the end-of-block code ends the block, the output unchanged |
| InflateProperties.LiteralStep | t2_inflate.c:466-467 | a literal's code appends exactly that byte when there is room |
| InflateProperties.HighSymbolStep | t2_inflate.c:482-484 | the code of a symbol above 285 stops the step and the block with InvalidSymbol |
| InflateProperties.FixedHighSymbol | t2_inflate.c:482-484 | the fixed code gives symbols 286 and 287 8-bit codes, and a fixed block reaching one fails with InvalidSymbol |
| InflateProperties.MatchStep | t2_inflate.c:470-481 | the codes of a length's symbol, its extra bits, a distance's symbol and its extra bits copy the length from the distance back (Repeat), or are InvalidDistance past the start of the output, or BufferOverflow past its end |
| InflateProperties.MatchBlock | t2_inflate.c:460-481 | a block of one such pair and the end code decodes to that copy |
| InflateProperties.LiteralsOverflow | t2_inflate.c:467 | literals that do not fit the output fail with BufferOverflow |
| InflateProperties.FixedLiteralCanonical | t2_inflate.c:319-321 | the fixed codes' literal table is canonical and every byte and the end of block have a code |
| InflateProperties.FixedLiteralsRoundTrip | t2_inflate.c:519-520 | a fixed block holding only literals decodes to them |
| InflateProperties.FooHeader | t2_inflate.c:508-509 | the first byte 75 gives header 3: final, fixed codes |
| InflateProperties.FinalBlock | t2_inflate.c:528-529 | decoding stops after a block whose header has the final flag |
| InflateProperties.FinalFixedBlock | t2_inflate.c:519-529 | a final block with fixed codes that decodes ends the stream |
| InflateProperties.FooBlock | t2_inflate.c:581 | after the header, the test input is the fixed block "foo" |
| InflateProperties.InflateFoo | t2_inflate.c:580-589 | the input 75, 203, 207, 7, 0 decompresses into a 4096-byte buffer as "foo" |
| Cesu.Encode | t2_json.c:16-20 | 1, 2 or 3 bytes by range; a 1-byte form equals the code point; lead bytes 0xC2..0xDF and 0xE0..0xEF; every later byte is a continuation byte |
| Cesu.Decode | t2_json.c:16-20 | the reader's side: a code point below 0x10000 and 1 to 3 bytes |
| Cesu.DecodeEncode | t2_json.c:17-19 | decoding the bytes written for a code point gives it back, whatever follows |
| Cesu.EncodeInjective | t2_json.c:17-19 | distinct code points are written as distinct bytes |
| Cesu.EncodeAll | t2_json.c:146 | code points written one after another take 1 to 3 bytes each |
| Cesu.DecodeAllEncodeAll | t2_json.c:146 | the bytes of a list of code points decode back to that list |
| Cesu.Write | t2_json.c:16-20 | stores Encode of the code point at the index, returns its length, and changes nothing else |
| Hex.DigitValue | t2_json.c:23-29 | a value below 16 iff the character is a hex digit of either case; otherwise the assertion fails (None) |
| Hex.DigitRoundTrip | t2_json.c:25-27 | both spellings of a digit read as its value, and a digit is one of them |
| Hex.Hex4 | t2_json.c:32-35 | four characters give a value below 0x10000 iff all are hex digits |
| Hex.HexQuadRoundTrip | t2_json.c:34 | the four digits of a 16-bit value read back as the value, most significant first |
| JsonScan.SkipBlanks | t2_json.c:45 | the first character at or after the cursor that is not a space or tab; all it skips are blanks |
| JsonScan.Structural | t2_json.c:65-92 | NUL is END, a quote is STRING, a digit or '-' is NUMBER, and `[ { ] } : ,` are their own character codes; the switch never yields a keyword or ERROR |
| JsonScan.Classify | t2_json.c:61-99 | `tok` as written: the switch's classes, and for every other character TRUE exactly when the rest of the text is "false", otherwise FALSE |
| JsonScan.ClassifyKeywords | t2_json.c:94-98 | `tok` as intended: FALSE, TRUE and NULL iff the text starts with that keyword, ERROR iff nothing matches |
| JsonScan.ClassifyAgrees | t2_json.c:65-92 | the two classifications agree on every character the switch handles |
| JsonScan.ChompFrom | t2_json.c:106-116 | the skipping loop never moves past the terminating NUL |
| JsonScan.Chomp | t2_json.c:101-117 | skipping a string ends at or after the first non-blank and before the end |
| JsonScan.EscapeLetter | t2_json.c:136-143 | each character an encoder must escape has a letter that the unescaper maps back to it |
| JsonScan.EscapeThen | t2_json.c:134-153 | the encoder's output holds one or two characters for each character of the text, followed by `post` |
| JsonScan.UnescapeFrom | t2_json.c:126-155 | the unescaping loop writes at most the room and extends what it has written; it stops before the room is full only at a closing quote; errors are only ReadPastEnd, InvalidHexDigit and BufferOverflow |
| JsonScan.EscapeFrom | t2_json.c:134-151 | the escape case, with the same guarantees |
| JsonScan.DecodeString | t2_json.c:119-158 | `get_string` writes at most size - 1 characters and leaves the cursor after the blanks and before the end |
| JsonEscaping.CharStep | t2_json.c:127-153 | the loop steps over the encoder's form of one character and writes it |
| JsonEscaping.UnescapeEscaped | t2_json.c:126-155 | the loop steps over the encoder's form of a string and writes it, while there is room |
| JsonStrings.ClosingQuote | t2_json.c:129-132 | the closing delimiter ends the string and is stepped over |
| JsonStrings.QuotedChain | t2_json.c:126-155 | a quoted string from the encoder decodes to its text |
| JsonStrings.DecodeAt | t2_json.c:121-126 | `get_string` opens at the first non-blank |
| JsonStrings.DecodeQuoted | t2_json.c:119-158 | round trip: a string written by the encoder decodes to its text, and the cursor stops just after the closing quote |
| JsonStrings.UnicodeEscape | t2_json.c:144-148 | `\uXXXX` writes the CESU-8 bytes of its code point and steps over all six characters |
| JsonStrings.UnknownEscape | t2_json.c:134-151 | an unknown escape writes nothing and steps over both characters |
| JsonStrings.BadHex | t2_json.c:145 | `\u` followed by a non-hex digit is InvalidHexDigit |
| JsonStrings.TrailingBackslash | t2_json.c:134-135 | a backslash as the last character reads past the end |
| JsonStrings.BufferFull | t2_json.c:126 | the loop stops, unclosed, once the buffer is full |
| JsonStrings.TruncatedChain | t2_json.c:126-155 | a buffer with room for exactly the text is filled with it |
| JsonStrings.DecodeTruncated | t2_json.c:119-158 | truncation: a buffer of |t| + 1 receives t, unclosed, and the cursor stops after its last character |
| JsonStrings.NulThenEnd | t2_json.c:127-153 | reaching the terminating NUL with room to spare is ReadPastEnd: it is copied like any other character and the next step reads past the end |
| JsonStrings.UnclosedChain | t2_json.c:126-155 | a string with no closing quote reads past the end |
| JsonStrings.DecodeUnclosed | t2_json.c:119-158 | `get_string` on an unclosed string is ReadPastEnd when the buffer has room |
| JsonStrings.DecodeAccent | t2_json.c:144-148 | the escape `"\u00e9"` decodes to the two CESU-8 bytes 0xC3 0xA9 (a raw `é` in the text is copied as one character) |
| JsonStrings.ChompHex | t2_json.c:106-116 | `chomp_string` steps over a hex digit one place at a time |
| JsonStrings.ChompUnicode | t2_json.c:106-116 | `chomp_string` steps over the `u` and the four digits of an escape |
| JsonStrings.ChompUnescape | t2_json.c:106-116 | where the unescaping loop closes a string, `chomp_string`'s loop ends at the same place |
| JsonStrings.ChompAgrees | t2_json.c:101-158 | `chomp_string` ends where a `get_string` that reads the whole string leaves the cursor |
| JsonStrings.ChompQuoted | t2_json.c:101-117 | `chomp_string` steps over a quoted string from the encoder, to just after its closing quote |
| JsonParser.StepEnd | t2_json.c:127 | a turn with the cursor on the last character reads past the end |
| JsonParser.StepClose | t2_json.c:129-132 | a turn on the delimiter closes the string |
| JsonParser.StepPlain | t2_json.c:152-153 | a turn on a plain character writes it |
| JsonParser.StepEscape | t2_json.c:134 | a turn on a backslash is the escape case |
| JsonParser.StepLetter | t2_json.c:135-151 | an escape letter writes its character, or nothing when unknown |
| JsonParser.StepShortHex | t2_json.c:145 | a `\u` with fewer than four characters after it is InvalidHexDigit |
| JsonParser.StepBadHex | t2_json.c:145 | a `\u` with a non-hex digit is InvalidHexDigit |
| JsonParser.StepHexOverflow | t2_json.c:146 | a `\u` whose bytes exceed the room is BufferOverflow |
| JsonParser.StepHex | t2_json.c:144-148 | a `\u` that fits writes the CESU-8 bytes and steps over six characters |
| JsonParser.Parser.constructor | t2_json.c:170 | the cursor at the start, no restore point, no error, all slots NULL |
| JsonParser.Parser.Sync | t2_json.c:45 | the cursor moves to SkipBlanks |
| JsonParser.Parser.Breq | t2_json.c:47-58 | true iff the first non-blank is `c`; the cursor is then one past it, otherwise on it (the build without `T2_JSON_DEBUG`) |
| JsonParser.Parser.Jreq | t2_json.c:168 | as Breq, and a miss sets the error flag, which stays set |
| JsonParser.Parser.Tok | t2_json.c:61-99 | moves past blanks only and returns ClassifyKeywords there |
| JsonParser.Parser.GetType | t2_json.c:172 | ERROR, the cursor unchanged, once the error flag is set; otherwise Tok. Through Tok it uses the intended keyword test (first Findings row), so it can differ from the as-written `get_type`: on `xyz` it is ERROR where the source gives FALSE |
| JsonParser.Parser.HasError | t2_json.c:173 | true iff the flag is set or the token is ERROR. Through Tok it uses the intended keyword test (first Findings row), so on text such as `xyz` it is true where the as-written `has_error` is false |
| JsonParser.Parser.ChompString | t2_json.c:101-117 | the cursor moves to Chomp |
| JsonParser.Parser.Turn | t2_json.c:127-154 | one turn either goes on, advancing the cursor without changing what the rest of the loop decodes, or closes with the loop's result, or fails with its error, leaving the cursor; no character of the buffer past those written changes |
| JsonParser.Parser.TurnPlain | t2_json.c:152-153 | writes the character and advances one place; no character of the buffer past those written changes |
| JsonParser.Parser.TurnEscape | t2_json.c:134-151 | as Turn, for a backslash, against the escape case; it never closes; no character of the buffer past those written changes |
| JsonParser.Parser.TurnHex | t2_json.c:144-151 | as Turn, for `\u`, against the escape case; it never closes; no character of the buffer past those written changes |
| JsonParser.Parser.TurnLetter | t2_json.c:135-143 | writes the character of a simple escape, or nothing for an unknown one, and steps over both; no character of the buffer past those written changes |
| JsonParser.Parser.TurnUnicode | t2_json.c:144-148 | reads the four digits as Hex4 and writes the CESU-8 bytes; a bad digit or lack of room fails, leaving the cursor; no character of the buffer past those written changes |
| JsonParser.Parser.GetString | t2_json.c:119-158 | writes DecodeString's characters and a NUL after them into the buffer, and moves the cursor to its end; on an error the cursor stays; on success the buffer after the NUL is as before |
| JsonParser.Parser.Save | t2_json.c:175 | pushes the cursor and returns it, the cursor unchanged; StackOverflow when all ten slots are in use |
| JsonParser.Parser.Restore | t2_json.c:176 | pops the latest restore point, moves the cursor back to it and returns the cursor before the call; StackUnderflow when nothing is saved |
| JsonFindings.KeywordsInverted | t2_json.c:94-96 | as written, "true" and "null" are FALSE and "false" is TRUE; the intended classification gives TRUE, NULL and FALSE |
| JsonFindings.RestoreResult | t2_json.c:176 | what `t2_json_restore` returns as written: a slot above the popped one, absent when the stack was full |
| JsonFindings.RestoreReturnsStale | t2_json.c:176 | after one save on a fresh parser, restore returns the unset slot, not a cursor |

## Left out

- `t2_co.h` (fibres and stack switching) is not part of this model: it is control-flow machinery with nothing to state.
- `t2_deflate_wip.h` is not part of this model: it is an unfinished encoder that does not compile.
- `t2_tests.h` and the test `main` are not part of this model: they are harness code and output. Their vectors are the lemmas `Bits.BitReaderVector` and `InflateProperties.InflateFoo`.
- Process exit, `int3` and the messages on stderr in `t2_d_die` and `t2_d_assert` are not modelled: each is an `Err` result.
- The `HUFFMAN_LENGTH` structs and the `select_length` switch (t2_inflate.c:119-157) are a memory layout. The model has one sequence of 15 buckets instead, and a length above 15 is `InvalidCodeLength`.
- Huffman.Build: the capacity of a bucket is not modelled. `HUFFMAN_LENGTH(n)` gives length n room for `(1 << n) - 1` symbols (t2_inflate.c:119), and t2_inflate.c:220 stores into the next slot without a check. So a full code builds `Ok` in the model where C writes past `code_idx_to_symbol`: two distance codes of length 1, or the 32 five-bit fixed distance codes (t2_inflate.h:346-348). An oversubscribed code builds `Ok` too. `Huffman.GroupSymbols` and `Huffman.BuildTable` have no bound either.
- The lazy initialisation of `t2_z__fixed_huffman_tables` (t2_inflate.h:321-353) is modelled as `Fixed.FixedTables`. Thread-safety of its first use is not modelled.
- The fixed-width variables are unbounded, because every value they hold fits:
  - `uint64_t` reads are at most 64 bits;
  - codes are at most 15 bits;
  - lengths are at most 258 and distances at most 32768;
  - runs are at most 138;
  - JSON's `int` buffer index is bounded by the buffer.
  - The one variable that can overflow, the `uint8_t` index of the dynamic reader, is replaced by the RFC's unbounded index (see above).
- JSON numbers, `chomp_number` and `t2_json_get_number` (t2_json.c:160-166, 178), are not modelled: they rely on `strtod` and floating point.
- `print_*` and the example `main` (t2_json.c:268-345) are not modelled: they are `printf` output.
- `t2_json_string_len` (t2_json.c:182-188) is not modelled: it only composes save, `chomp_string` and restore, and as written it subtracts the stale pointer that `t2_json_restore` returns (see Findings).
- The one-line wrappers over `jreq` and `get_type` (t2_json.c:190-200) are not modelled separately: each is `JsonParser.Parser.Jreq` with a fixed character, or a comparison of `GetType`'s result.
- `t2_json_skip`, `t2_json_get_array_child`, `t2_json_find_object_child` and the `skip_*` helpers (t2_json.c:202-267) are not modelled: they drive the scanner over whole values, including numbers, and lie outside the scanner itself.
- JsonParser.Parser.Breq: a miss returns false. The source as shipped defines `T2_JSON_DEBUG` (t2_json.h:12) and so fails `assert(false)` on a miss instead; that process exit is not modelled.
- JsonParser.Parser.Jreq: a miss sets the sticky error flag, which the source as shipped never reaches, because its `breq` has already failed the debug assertion.
- Inflating.InflateArrays: returns the number of bytes written. `t2_z_inflate` (t2_inflate.c:533-540) returns nothing and works on copies of the two buffer structs, so its caller never learns how far the output got; the model returns it so that its contract can say what the output is.
- JsonParser.Parser.GetString: requires a buffer of at least one character. With `Vl` = 0, C writes the NUL outside the buffer.
- JsonParser.Parser.GetString: on an error, the cursor is left where it was. In C the cursor has already run past the NUL, which is undefined behaviour.

## Findings

| source | as written | input that shows it | evidently intended | confidence | as-written member | corrected member |
|---|---|---|---|---|---|---|
| t2_json.c:94-96 | `match` returns `strcmp`'s result, so a keyword test is true when the rest of the text differs from the keyword | "true", "null" and "false"; all three are classified wrongly | TRUE, FALSE and NULL when the text starts with that keyword | high, not executed | JsonFindings.KeywordsInverted | JsonScan.ClassifyKeywords |
| t2_json.c:176 | `t2_json_restore` returns slot `n + 1` after popping slot `n`: a stale or NULL scanner | save on a fresh parser, move the cursor, restore: the result is the NULL slot 1 | the cursor before the call, as t2_json.h:63-64 promises | high, not executed | JsonFindings.RestoreReturnsStale | JsonParser.Parser.Restore |
