# XRADIO SDK models

Dafny models, with proofs, of seven stateful components of the XRADIO wireless MCU SDK:

- **XZ decoding** (`src/xz`). A resumable decoder: range decoder, LZMA symbol decoders, ring dictionary,
  LZMA2 chunk automaton with its 63-byte carry-over buffer, ARM-Thumb branch filter with its 16-byte
  carry-over buffer, and the `.xz` container with Index and Stream Footer. Each layer has a reference that
  reads a whole stream or file at once and knows nothing of calls, buffers or limits (`Lzma2Reference`,
  `BcjFilter.Filter`, `XzFormat`), and the imperative decoder is proved to compute it for every way of
  cutting input and output into calls. What the references decode is said by writers that know nothing of
  them: a range encoder over unbounded numbers, LZMA operations with their four latest distances, LZMA2
  chunks, and files byte by byte; decoding what they write gives back the text.
- **cJSON** (`src/cjson`). Parser, allocating printer and printer into a growing buffer, over nodes linked
  like the code's own; printing and parsing undo each other. A grammar says which texts are values, with
  numbers, escapes, UTF-16 and UTF-8 as arithmetic; the parser accepts exactly these texts.
- **eFuse storage** (`src/efpg`). Multi-slot regions and the boot hash with recorded corrections, over fuses
  that can only go from 0 to 1, may fail to be programmed and read back stably.
- **Console** (`src/console`). Line buffers passed between the receive interrupt and the console task; the
  commands received are exactly those typed.
- **Heap tracker** (`src/libc/wrap_malloc.c`). The allocation table with its search hint.

Objects whose methods update fields are classes; loops are loops; lists and histories that exist only for
the proofs are ghost. Every class method is proved against a function or relation of its old state, and the
properties are lemmas about those functions or invariants that the methods keep.

Descriptions that the code is compared with use numbers and bytes of their own: they share types with the
model, and where they name a function of it (`Filter`, `Utf8`, `Encode`, `Crc`) there is a law that says in numbers
what that function is.

## Layers of the XZ decoder

| file | contents |
|---|---|
| RangeCoder, LzmaSymbol, LzmaSymbolProofs | range decoder and symbols as functions; invariants; bytes used by a symbol; independence of the buffer a symbol is read from |
| Dictionary, RangeDecoder, XzBuffer | the ring and the range decoder as classes |
| Lzma2Reference, Lzma2Sync, Lzma2Decoder, Slicing | LZMA2 as a byte-step machine, the real decoder in step with it, and callers that cut in every way |
| RangeEncoder, LzmaCoding, LzmaEncoder, LzmaOperations | an encoder: intervals, chances after the choices before, trees, and operations; decoding in step with it |
| LzmaRun, Lzma2Writer | the text of operations, chunks with their resets, and streams that decode to it |
| BcjFilter, BcjDecoder, BcjSlicing | the branch filter, its buffering, and callers |
| BcjLaw | the filter said of single instructions |
| XzFormat, XzPlace | a parser that reads a whole `.xz` file at once, and the places inside it |
| XzIndex, XzFile | what an Index and what a `.xz` file is, without a parser |
| XzCrc, XzHeaders, XzWriter | CRC32 as a division of polynomials, headers and files byte by byte |
| XzField, XzIndexDec, XzBlock, XzStream, XzSlicing | the container decoder and its callers |

The other components are one file each for the code's own structure (Efuse, EfuseRegion, EfuseBoot; Console;
HeapTracker; JsonText to JsonStrict) and one for its description: EfuseLaw for single fuses, ConsoleInput for what
is typed, JsonNumerals, JsonLiterals, JsonGrammar and JsonLayout for texts.

## Findings

Where the code does something else than its comments or its description promise, the code was modelled.

- Dictionary sizes are multiples of 4096 except for properties byte 1, where the size is 6144; all are
  multiples of 2048, which is enough for the position masks (`Lzma2Decoder.DictionarySizeBound`).
- After a direct bit the range decoder can reach `code == range` on corrupt input; exactly when is stated by
  `RangeCoder.DirectKeepsCodeBelowRange`, with an instance in `RangeCoder.DirectCanReachRange`.
- `HAL_EFUSE_Read` does not clear the bits of the last byte behind those asked for, although its comment
  says that it reads the given number of bits (`Efuse.Chip.ReadWords`). The models take a parameter `masked`
  for exact reads. With the driver's reads the two flags of a slot can be stuck and pass for set, because
  other fuses are seen beside them. Then `efpg_write_region` reports success and the next `efpg_read_region`
  returns something else. `EfuseRegion.WriteExact` says before the write when that can happen, for all
  patterns of failing fuses: if and only if the fuses are `AtRisk`. This is so for every region that is
  blank and has more than one slot (`BlankAtRisk`), and there is no bound on the number of writes that
  succeed (`NoBound`, `ManyWrites`). With exact reads there is no such case. The test of one slot is exact if
  and only if its two flags read as zero before (`GuardExact`).
- A boot hash that needs fewer corrections than are recorded from an earlier write reads back wrong, for
  instance when the stored hash is written again (`EfuseBoot.StaleRecord`, `StaleInstance`).
  `EfuseBoot.BootWriteExact` says before the write when that can happen; it cannot if both enable fields
  read as zero.
- On the console a carriage return and a newline that come in two interrupts end two lines, the second one
  empty (`Console.SplitReturnNewline`). A cut of the input changes the lines if and only if it comes between
  these two characters (`Console.CutExact`).
- `__wrap__realloc_r` forgets the old pointer for size 0 even if the real reallocation returns a pointer
  (it logs that case); what was returned is then not listed (`HeapTracker.Tracker.Realloc`).
- cJSON accepts a string literal without its closing quote at the end of the text, for instance a quote and
  a letter (`JsonStrict.OpenInstance`). It does so if and only if the literal is the whole value: inside an
  array or object the bracket is then missing (`JsonStrict.ValueExact`). Apart from these it accepts exactly
  the texts of `JsonGrammar.Source` (`JsonGrammar.TextExact`): beyond RFC 8259 numbers without digits behind
  the letter or behind a minus sign, one zero in front of other digits, every control character as a blank,
  and control characters inside literals.

## Model

| member | source | states |
|---|---|---|
| RangeCoder.BitKeepsInvariant | src/xz/xz_dec_lzma2.c:478-513 | On any input one byte restores the range to at least 2^24 below 2^32, the bound lies strictly inside it, the range after a bit is at least 2^17, and probabilities stay in 31..2017 |
| RangeCoder.BitKeepsCodeBelowRange | src/xz/xz_dec_lzma2.c:497-513 | A modelled bit keeps code below range |
| RangeCoder.DirectKeepsCodeBelowRange | src/xz/xz_dec_lzma2.c:553-569 | A direct bit keeps code below range if and only if it does not meet an odd range with code one below it |
| RangeCoder.DirectCanReachRange | src/xz/xz_dec_lzma2.c:553-569 | An input for which a direct bit leaves code equal to range |
| RangeCoder.UsedBytes | src/xz/xz_dec_lzma2.c:19-26 | 22 modelled and 26 direct bits use at most 20 bytes, 21 with the normalization after them |
| LzmaSymbolProofs.SymbolBytes | src/xz/xz_dec_lzma2.c:722-761 | One iteration of the main loop, on any input and in any decoder state, reads at most 20 bytes and 21 with the final normalization |
| LzmaSymbolProofs.SymbolMoves | src/xz/xz_dec_lzma2.c:846-925 | A symbol is decoded alike from the carry-over buffer, the caller's input and the stream, wherever they hold the same bytes |
| LzmaSymbol.LiteralIndexBound | src/xz/xz_dec_lzma2.c:572-578 | With valid properties the literal coder lies inside its table |
| RangeDecoder.RcDec.Bit | src/xz/xz_dec_lzma2.c:497-513 | rc_bit in place computes the bit, the registers and the adapted probability |
| RangeDecoder.RcDec.BitTree | src/xz/xz_dec_lzma2.c:519-532 | rc_bittree in place computes the tree function |
| RangeDecoder.RcDec.BitTreeReverse | src/xz/xz_dec_lzma2.c:535-550 | rc_bittree_reverse in place computes the reversed tree function |
| Dictionary.RingAppend | src/xz/xz_dec_lzma2.c:333-339 | Writing at pos keeps the ring equal to the last bytes of the history, whatever was overwritten |
| Dictionary.LzCopyResumes | src/xz/xz_dec_lzma2.c:346-371 | A copy interrupted after any number of bytes and resumed is the whole copy |
| Dictionary.LzCopyIsPeriodic | src/xz/xz_dec_lzma2.c:346-371 | The overlapping copy repeats the last dist + 1 bytes |
| Dictionary.Dict.Get | src/xz/xz_dec_lzma2.c:320-328 | The byte at a valid distance is that of the unbounded history |
| Dictionary.Dict.Put | src/xz/xz_dec_lzma2.c:333-339 | Appends one byte to the history |
| Dictionary.Dict.Repeat | src/xz/xz_dec_lzma2.c:346-371 | Fails exactly for a distance outside history or dictionary; otherwise appends the LZ77 copy as far as the limit allows and returns the rest of the length |
| Dictionary.Dict.Uncompressed | src/xz/xz_dec_lzma2.c:374-409 | Input goes to history and output alike, over any number of wraps of the ring |
| Dictionary.Dict.Flush | src/xz/xz_dec_lzma2.c:416-431 | Gives the caller exactly the history since the last flush, and wraps |
| Lzma2Reference.StepInv | src/xz/xz_dec_lzma2.c:936-1102 | Control automaton: every step keeps the invariant by which symbols are decoded only after a dictionary reset and properties since, with lc + lp at most 4 and masks at most 15; and it moves on in the stream or lowers a rank |
| Lzma2Decoder.Lzma2Dec.LzmaProps | src/xz/xz_dec_lzma2.c:799-828 | Accepts exactly the properties bytes up to 224 with lc + lp at most 4, and splits them |
| Lzma2Decoder.Lzma2Dec.Symbol | src/xz/xz_dec_lzma2.c:737-751 | One iteration in place computes the symbol function, of which LzmaOperations.SymbolSync says what it decodes, and appends what the symbol stands for to the history |
| Lzma2Decoder.Lzma2Dec.LzmaMain | src/xz/xz_dec_lzma2.c:722-761 | From any buffer that holds part of the stream: keeps what the stream decodes to, fails or reads past its limit only if the stream is corrupt, reads nothing outside the buffer |
| Lzma2Decoder.Lzma2Dec.Lzma2Lzma | src/xz/xz_dec_lzma2.c:846-925 | The carry-over buffer: takes each input byte once, keeps what the stream decodes to, and writes whenever there is room unless input is missing |
| Lzma2Decoder.Lzma2Dec.Run | src/xz/xz_dec_lzma2.c:931-1106 | Ends on every input; XZ_OK keeps what the stream decodes to and waits for input or room; XZ_STREAM_END means that exactly the output of the stream was produced, at its end; XZ_DATA_ERROR means that the stream is corrupt |
| Lzma2Decoder.Lzma2Dec.WaitsInVain | src/xz/xz_dec_lzma2.c:1088-1092 | If all of a stream was given, XZ_OK means a full output buffer with more to come, or no end marker where one is due; of corrupt streams that leave room, only those that end within an LZMA chunk |
| Lzma2Decoder.Lzma2Dec.Reset | src/xz/xz_dec_lzma2.c:1132-1167 | Which properties bytes are refused and why; otherwise the decoder is at the start of a stream |
| Lzma2Decoder.DictionarySizeBound | src/xz/xz_dec_lzma2.c:1138-1145 | Sizes are multiples of 2048, and of 4096 if and only if the properties byte is not 1 |
| Slicing.ResetForgets | src/xz/xz_dec_lzma2.c:1132-1167 | After a reset nothing left over from earlier streams changes what a stream decodes to |
| Slicing.DecodeInPieces | src/xz/xz_dec_lzma2.c:931-1106 | Any sequence of calls delivers a prefix of what the stream decodes to, and all of it at XZ_STREAM_END |
| Slicing.DecodeAll | src/xz/xz_dec_lzma2.c:931-1106 | Calls with non-empty buffers always come to an end, with XZ_STREAM_END if and only if the stream has an end, and then with exactly its output and length; a corrupt stream is refused unless it ends within an LZMA chunk |
| Slicing.DecodeAtOnce | src/xz/xz_dec_lzma2.c:931-1106 | One call with all input and room for the output ends every stream that has an end |
| RangeEncoder.BitTuned | src/xz/xz_dec_lzma2.c:478-516 | A decoder on the way through the bytes of an encoded interval gets the bit that was put, for every probability, and is in step with the narrowed interval |
| RangeEncoder.DirectTuned | src/xz/xz_dec_lzma2.c:553-565 | The same for a bit without a model, whatever the parity of the range |
| LzmaCoding.IndexInjective | src/xz/xz_dec_lzma2.c:113-212 | No two kinds of bits of the format share a probability of the table |
| LzmaCoding.BitSync | src/xz/xz_dec_lzma2.c:497-516 | A bit is decoded as put, and every probability is afterwards the chance of its kind: 1024 at first, a 32nd of what is left to certainty more after each zero, a 32nd less after each one |
| LzmaOperations.SymbolSync | src/xz/xz_dec_lzma2.c:581-761 | A literal, match, short repeat or repeat at distance k = 0, 1, 2, 3 (bits 0, 10, 110, 111) is decoded from its choices, with its length, and the distances R become [R[k]] + R[..k] + R[k+1..] |
| LzmaOperations.OperationKnown | src/xz/xz_dec_lzma2.c:581-719 | Every choice of an operation has a place in the table |
| LzmaRun.RunAll | src/xz/xz_dec_lzma2.c:722-761 | Inside a chunk, operations of any number are decoded to the text they stand for, each match repeating bytes at its distance |
| LzmaRun.TooFar | src/xz/xz_dec_lzma2.c:346-371 | A distance beyond the text or the dictionary is refused, after all text before it |
| LzmaRun.CutRefused | src/xz/xz_dec_lzma2.c:1078-1081 | A chunk that ends within a match is refused |
| LzmaRun.ExtraRefused | src/xz/xz_dec_lzma2.c:1078-1081 | A chunk that is longer than its code is refused |
| Lzma2Writer.WrittenDecodes | src/xz/xz_dec_lzma2.c:931-1106 | Every stream of plain and packed chunks, with any resets allowed in their order (0x01, 0x02, 0x80, 0xA0, 0xC0, 0xE0) and their sizes and properties as bytes, decodes to the text of its chunks and ends at its end marker |
| Lzma2Writer.ControlExact | src/xz/xz_dec_lzma2.c:938-1015 | A control byte is refused if and only if it has no meaning, does not reset the dictionary before the first reset, or relies on properties that have to be said again |
| Lzma2Writer.FewChoicesFit | src/xz/xz_dec_lzma2.c:1028-1038 | A code has at most six bytes more than choices, so every chunk of at most 65530 choices fits its size field |
| Lzma2Writer.DecodeWritten | src/xz/xz_dec_lzma2.c:931-1106 | The decoder called with any buffers ends a written stream with XZ_STREAM_END, all of its text and its length |
| Lzma2Decoder.DictionarySizes | src/xz/xz_dec_lzma2.c:1132-1146 | The sizes are 4096, 6144 and then twice the size two steps before |
| BcjFilter.ConvertBack | src/xz/xz_dec_bcj.c:293-308 | Converting a branch there and back is the identity if and only if the position is even |
| BcjFilter.FilterInverse | src/xz/xz_dec_bcj.c:288-312 | At even positions the scan with addition undoes the scan with subtraction and the other way round, on buffers of every length |
| BcjFilter.FilterResumes | src/xz/xz_dec_bcj.c:288-312 | Filtering a prefix and resuming at the returned index is filtering the whole |
| BcjFilter.FilterKeepsTail | src/xz/xz_dec_bcj.c:288-312 | Bytes behind the returned index are not changed |
| BcjFilter.ArmThumb | src/xz/xz_dec_bcj.c:288-312 | bcj_armthumb in place computes the filter, which BcjLaw.FilterExact gives for each instruction, and its index, and touches nothing else |
| BcjLaw.FilterExact | src/xz/xz_dec_bcj.c:288-312 | A buffer is what the filter makes of another if and only if every pair 0xF000.., 0xF800.. at an even offset i keeps its prefixes and has the distance (target - (pos + i + 4)) / 2 for the address, modulo 2^22, or the other way around, and all other bytes are the same |
| BcjDecoder.TailIsShort | src/xz/xz_dec_bcj.c:64-76 | At most three bytes wait unfiltered |
| BcjDecoder.XzBcj.Flush | src/xz/xz_dec_bcj.c:399-410 | Delivers filtered bytes in order; filtered <= size <= 16 stays |
| BcjDecoder.XzBcj.Run | src/xz/xz_dec_bcj.c:417-525 | What is delivered and what waits is the filter applied once to all LZMA2 output so far; at XZ_STREAM_END all of it, with its tail unfiltered |
| BcjSlicing.FilterAll | src/xz/xz_dec_bcj.c:417-525 | Calls with non-empty buffers come to an end, with XZ_STREAM_END if and only if the LZMA2 stream has one, and then with the filter applied once to its whole output |
| XzFormat.VliExact | src/xz/xz_dec_stream.c:186-215 | An integer is read if and only if its bytes are the minimal encoding of a value below 2^63 |
| XzFormat.EncodeExact | src/xz/xz_dec_stream.c:186-215 | The encoding of an integer is the only byte string with seven bits of it in each byte, the highest bit set in all but the last, and no zero at the end |
| XzFormat.EncodeInjective | src/xz/xz_dec_stream.c:186-215 | Different integers have different encodings |
| XzFormat.CrcJoin | src/xz/xz_crc32.c:79-89 | A CRC computed in pieces is the CRC of the whole |
| XzCrc.CrcIsDivision | src/xz/xz_crc32.c:28-88 | The table-driven CRC32 is the complement of the remainder of the message, lowest bits first, divided bit by bit by x^32 + x^26 + x^23 + x^22 + x^16 + x^12 + x^11 + x^10 + x^8 + x^7 + x^5 + x^4 + x^2 + x + 1 |
| XzHeaders.StreamHeaderExact | src/xz/xz_dec_stream.c:407-440 | A Stream Header is accepted if and only if it is the magic bytes, 00, the check 0 or 1, and the CRC32 of both as four bytes |
| XzHeaders.StreamFooterExact | src/xz/xz_dec_stream.c:443-467 | A Stream Footer is accepted if and only if it is the CRC32 of its fields, the size of the Index with its CRC32 in words less one, the flags and the magic bytes |
| XzHeaders.BlockHeaderExact | src/xz/xz_dec_stream.c:470-568 | A Block Header is accepted if and only if it is its size in words less one, the flags, the sizes there are, the filters, zeros and a CRC32, with a dictionary that fits |
| XzHeaders.SizesExact | src/xz/xz_dec_stream.c:229-283 | The sizes of a Block are accepted if and only if they are those that its header has |
| XzField.Field.DecVli | src/xz/xz_dec_stream.c:186-215 | dec_vli, resumed over any number of calls, reads the integer that stands in the file |
| XzField.Field.CrcValidate | src/xz/xz_dec_stream.c:365-383 | Over any number of calls: succeeds if and only if the four bytes are those of the CRC |
| XzIndex.IndexExact | src/xz/xz_dec_stream.c:314-358 | For any totals: the end of a file is accepted if and only if it is the Index of as many records, with sums and hash that agree with the totals, its own CRC32, and its size as Backward Size (as four bytes in XzHeaders.StreamFooterExact and XzWriter.BackwardSize) |
| XzIndex.HashSums | src/xz/xz_dec_stream.c:337-347 | The hash of records holds the sums of both sizes modulo 2^64 |
| XzFile.FileExact | src/xz/xz_dec_stream.c:299-358 | A file is accepted if and only if it is a Stream Header, Blocks, and an Index of as many records as there are Blocks, whose hash and whose sums of both sizes modulo 2^64 are those of the Blocks, with a Stream Footer that fits; the output is that of the Blocks |
| XzFile.BlockPaddingExact | src/xz/xz_dec_stream.c:655-672 | Block Padding is the zeros up to a multiple of four of the compressed size |
| XzIndexDec.IndexDec.Update | src/xz/xz_dec_stream.c:299-304 | size and crc cover exactly the bytes of the Index up to the current position |
| XzIndexDec.IndexDec.DecIndex | src/xz/xz_dec_stream.c:314-358 | For every slicing the fields of the Index are read as from the whole file, and size and crc cover what was read |
| XzIndexDec.IndexDec.Padding | src/xz/xz_dec_stream.c:715-736 | Index Padding is zeros up to a multiple of four of the Index size; then the hashes are compared |
| XzBlock.BlockDec.DecBlock | src/xz/xz_dec_stream.c:229-296 | Sizes and CRC follow the data given out; a Block that exceeds or misses its header sizes is refused; a complete Block adds exactly its sizes to the hash |
| XzStream.XzDec.DecStreamHeader | src/xz/xz_dec_stream.c:407-440 | XZ_FORMAT_ERROR means exactly that the magic bytes are wrong, XZ_DATA_ERROR exactly that they are right and the CRC32 is not, and XZ_OPTIONS_ERROR any other refusal |
| XzStream.XzDec.DecBlockHeader | src/xz/xz_dec_stream.c:470-568 | Accepts exactly the supported Block Headers and starts the decoders they ask for; a damaged one is XZ_DATA_ERROR, reserved flags are XZ_OPTIONS_ERROR, and XZ_MEMLIMIT_ERROR is returned for one that only asks for too large a dictionary, and never without one |
| XzStream.XzDec.DecMain | src/xz/xz_dec_stream.c:570-751 | Wherever the input is cut: XZ_OK keeps what the rest of the file amounts to, XZ_STREAM_END is returned at the end of a valid file with exactly its output, any error only for a file that is not valid |
| XzStream.XzDec.Run | src/xz/xz_dec_stream.c:776-810 | As DecMain; allow_buf_error is set exactly by a call without progress, and XZ_BUF_ERROR returned exactly at a second one in a row; an error other than XZ_DATA_ERROR is excused by the file: no magic bytes, or an undamaged header that asks for what is not supported or for more memory |
| XzWriter.WrittenFile | src/xz/xz_dec_stream.c:570-749 | Every file written byte by byte, with any number of Blocks, with or without sizes, branch filter and check, is valid, decodes to its texts and ends at its end |
| XzWriter.BackwardSize | src/xz/xz_dec_stream.c:443-467 | In every valid file the four bytes b at end - 8 give the length of the Index with its CRC32: (b0 + 0x100 b1 + 0x10000 b2 + 0x1000000 b3 + 1) * 4 = end - 12 - p for an Index at p |
| XzWriter.DecodeWrittenFile | src/xz/xz_dec_stream.c:776-810 | The decoder called with any buffers ends a written file with XZ_STREAM_END, all of its texts and its length |
| XzPlace.BlocksGrow | src/xz/xz_dec_stream.c:570-751 | The output of the Blocks so far is the beginning of all output that the file leads to |
| XzSlicing.DecodeFileInPieces | src/xz/xz_dec_stream.c:776-810 | Any calls with non-empty buffers: output is a prefix of what a valid file decodes to; the file is ended only if valid, with exactly its output and length; it is refused only if invalid; and with enough calls a valid file is always ended |
| XzSlicing.DecodeFileAll | src/xz/xz_dec_stream.c:776-810 | Calls with non-empty buffers always come to an end: with XZ_STREAM_END if and only if the bytes are a file, and then with exactly its output and length; otherwise with an error or XZ_BUF_ERROR |
| JsonRoundTrip.ValueRoundTrip | src/cjson/cJSON.c:921-966 | Parsing a printed value, with anything behind it that cannot continue a number, gives back the value and what is behind it |
| JsonRoundTrip.StringRoundTrip | src/cjson/cJSON.c:490-665 | Every NUL-free string survives escaping and parsing |
| JsonRoundTrip.NumberRoundTrip | src/cjson/cJSON.c:165-232 | Every integer survives printing and parsing |
| JsonNumerals.NumeralRead | src/cjson/cJSON.c:165-232 | A number written with digits w before the point, n digits f behind it and an exponent x is read as the mantissa w * 10^n + f with the exponent x - n or -x - n, for every sign and letter, with or without point and exponent |
| JsonNumerals.NumeralParsed | src/cjson/cJSON.c:165-232 | Whatever is read as a number is written so and has that value |
| JsonLiterals.Hex4Exact | src/cjson/cJSON.c:392-475 | Four hexadecimal digits of either case are read as their number, anything else as zero |
| JsonLiterals.Utf8Exact | src/cjson/cJSON.c:610-648 | The bytes written for a code point are its encoding by section 3 of RFC 3629, in numbers, and nothing else is |
| JsonLiterals.CharacterRead | src/cjson/cJSON.c:490-665 | A character, escape, code or pair of surrogates is read as what it stands for, a pair as 0x10000 + (high - 0xD800) * 0x400 + (low - 0xDC00) |
| JsonLiterals.CharacterParsed | src/cjson/cJSON.c:490-665 | Whatever is read as a character is one of these |
| JsonGrammar.ValueRead | src/cjson/cJSON.c:921-966 | The text of a source is read as its value, with all blanks, escapes and forms of numbers |
| JsonGrammar.OnlyTexts | src/cjson/cJSON.c:921-966 | Whatever is read as a value, other than a literal without its closing quote, is the text of a source for it |
| JsonGrammar.TextExact | src/cjson/cJSON.c:828-876 | A text is a value with nothing but blanks around it for the code if and only if it is the text of a source for that value with blanks around it |
| JsonGrammar.ParseText | src/cjson/cJSON.c:839-876 | cJSON_ParseWithOpts, asked for a terminator, succeeds exactly on these texts and returns nodes for the value |
| JsonParser.SpanUnit | src/cjson/cJSON.c:506-522 | The first pass over a string literal counts enough characters for every escape, so the second pass stays inside the allocation |
| JsonParser.ParseString | src/cjson/cJSON.c:490-665 | Both passes together compute the string of the literal on any text, and write only inside the allocated buffer |
| JsonParser.ParseNumber | src/cjson/cJSON.c:165-232 | Computes the number function on any text that starts like a number; its digits, point and exponent are given by JsonNumerals.NumeralRead and NumeralParsed |
| JsonItem.Item.AddNext | src/cjson/cJSON.c:1107-1115 | A node appended behind the last child is linked to it in both directions, and the nodes before it keep their values |
| JsonParser.ParseValue | src/cjson/cJSON.c:921-966 | Fills a new node, and links new nodes below it, that stand for exactly the value of the text; fails exactly where there is none |
| JsonParser.ParseArray | src/cjson/cJSON.c:1072-1136 | The linked children stand for the elements in order; fails exactly where the text is no array |
| JsonParser.ParseObject | src/cjson/cJSON.c:1308-1400 | The linked children carry the names and values of the members in order; fails exactly where the text is no object |
| JsonParser.ParseWithOpts | src/cjson/cJSON.c:839-876 | Succeeds exactly on a value, followed by nothing but spaces where that is required |
| JsonParser.ParseOfPrinted | src/cjson/cJSON.c:839-876 | The text printed for any tree, formatted or not, parses back to the tree and is used up |
| JsonStrict.LiteralEnd | src/cjson/cJSON.c:506-522 | An accepted literal ends behind the quote that the first pass finds, or with the text if it finds none |
| JsonStrict.StrictLiteral | src/cjson/cJSON.c:490-665 | A literal is accepted without its quote exactly if the first pass runs to the end of the text |
| JsonStrict.ValueExact | src/cjson/cJSON.c:921-966 | Beyond what a parser that wants the closing quote accepts, exactly the texts that are an unclosed literal as a whole are accepted |
| JsonStrict.OpenInstance | src/cjson/cJSON.c:506-522 | A quote and a letter are accepted as a whole text |
| JsonLayout.PrintedLaid | src/cjson/cJSON.c:969-1681 | What is printed is laid out as a source with given blanks: a member to a line, behind a tab for each level and with a tab behind the colon, a space behind commas of arrays, or no blanks at all; and with given escapes |
| JsonRoundTrip.NoControls | src/cjson/cJSON.c:668-811 | No control character is printed inside a literal |
| JsonBuffer.Pow2GtIsLeast | src/cjson/cJSON.c:235-252 | pow2gt gives the least power of two that is not smaller |
| JsonBuffer.PrintBuffer.Ensure | src/cjson/cJSON.c:264-301 | Keeps what was printed, makes room, grows to pow2gt, and fails exactly if the buffer may not grow |
| JsonBuffer.PrintBuffer.Update | src/cjson/cJSON.c:304-314 | Moves the offset to the terminator |
| JsonPrinter.Print | src/cjson/cJSON.c:969-1069 | The allocating printer renders the text with its terminator inside what it allocated |
| JsonPrinter.PrintArray | src/cjson/cJSON.c:1227-1302 | The length added up for the elements is enough for brackets, commas and terminator |
| JsonPrinter.PrintObject | src/cjson/cJSON.c:1558-1678 | Likewise for keys, tabs and braces at any depth |
| JsonPrinter.PrintString | src/cjson/cJSON.c:668-811 | Both ways of printing a string, with and without escapes, write the same text inside the computed length |
| JsonPrinter.PrintBuffered | src/cjson/cJSON.c:978-1030 | The buffered printer writes the same text behind what was printed before, never past the length, and fails only if the buffer may not grow and leaves less than 20 characters beside the text |
| JsonPrinter.PrintWithBuffer | src/cjson/cJSON.c:895-908 | The same text whatever the size of the first buffer |
| JsonPrinter.PrintPreallocated | src/cjson/cJSON.c:910-918 | If it succeeds the caller's buffer holds the text within its length; it succeeds if the length exceeds the text by 20 |
| JsonPrinter.PrintThenParse | src/cjson/cJSON.c:885-893 | Printing any linked tree and then parsing always succeeds with new nodes that stand for the same tree |
| Efuse.Chip.ReadWords | src/driver/chip/hal_efuse.c:188-200 | The words read, shifted and copied by bytes show the fuses asked for, and those behind as far as the words go |
| Efuse.Assembled | src/driver/chip/hal_efuse.c:196-200 | Word shifts by any amount put every fuse into its place, over any number of words |
| Efuse.Chip.Write | src/driver/chip/hal_efuse.c:232-290 | Fuses go from 0 to 1 at most where a 1 is written |
| EfuseRegion.ReadRegion | src/efpg/efpg_efuse.c:102-132 | Returns the data at the first pair of flags seen, which is that of the lowest flagged slot if there is one; nothing if no flag is seen |
| EfuseRegion.WriteRegion | src/efpg/efpg_efuse.c:134-184 | Success means data in a slot below all flagged ones with no flags below it, flagged itself with exact reads or if it was the first one tried and its flags read as zero before; EFPG_ACK_DI_ERR means that every slot below was tried in vain; flagged slots keep flags and data whatever happens |
| EfuseRegion.WriteThenRead | src/efpg/efpg_efuse.c:102-184 | If both succeed and the fuses were not at risk before the write, or the flag took, the read returns what was written |
| EfuseRegion.WriteMany | src/efpg/efpg_efuse.c:134-184 | At most flag_bits / 2 writes whose flag takes can ever succeed, for both kinds of reads; with exact reads these are all that succeed |
| EfuseRegion.LowestIs | src/efpg/efpg_efuse.c:116-119 | The scan stops at a slot exactly if it is the first flagged one |
| EfuseRegion.WriteExact | src/efpg/efpg_efuse.c:102-184 | For every state of the fuses and all data: each write that succeeds is returned by the next read, whatever fuses fail, if and only if the fuses are not at risk before; with exact reads they never are |
| EfuseRegion.RiskInVain | src/efpg/efpg_efuse.c:155-181 | For every region, data and fuses at risk there is a run in which the write succeeds and the next read returns something else |
| EfuseRegion.GuardExact | src/efpg/efpg_efuse.c:155-166 | A slot whose flags do not read as zero after they were written is flagged, whatever fails, if and only if its flags read as zero before |
| EfuseRegion.ComesUpon | src/efpg/efpg_efuse.c:116-124 | With stuck flags the next read returns the data of the slot that was flagged before |
| EfuseRegion.BlankAtRisk | src/efpg/efpg_efuse.c:153-181 | Every blank region of more than one slot is at risk for all data but zeros |
| EfuseRegion.NoBound | src/efpg/efpg_efuse.c:153-181 | Where other fuses are seen beside the flags of the highest free slot, any number of writes can succeed |
| EfuseRegion.ManyWrites | src/efpg/efpg_efuse.c:153-181 | An instance: a hundred writes to a region of three slots |
| EfuseLaw.SetExact | src/driver/chip/hal_efuse.c:157-208 | A field reads as something other than zero if and only if the read shows a fuse that is set: one asked for, or one behind them in the last byte and in the last word read |
| EfuseLaw.ReturnsFirst | src/efpg/efpg_efuse.c:102-132 | Once a flag is set, a read returns the fuses from data_start + k * data_bits on, for the first k with one of the fuses flag_start + 2k and flag_start + 2k + 1 set |
| EfuseLaw.ReturnedExact | src/efpg/efpg_efuse.c:102-132 | With exact reads it returns these and nothing else |
| EfuseLaw.CorrectedExact | src/efpg/efpg_efuse.c:228-271 | Bit i of the boot hash is fuse flag + 20 + i, inverted for each recorded error whose eight fuses name it; the second counts only with the first |
| EfuseBoot.DiffsExact | src/efpg/efpg_efuse.c:34-65 | The recorded differences are exactly the differing positions, each once and in order |
| EfuseBoot.HashCmp | src/efpg/efpg_efuse.c:34-65 | Succeeds if and only if the Hamming distance is at most two, and reports exactly the differing positions |
| EfuseBoot.ReadBoot | src/efpg/efpg_efuse.c:228-271 | Returns the stored hash with the recorded corrections |
| EfuseBoot.WriteBoot | src/efpg/efpg_efuse.c:316-395 | Success means the steps for at most two differences, all recorded, and records that were not needed unchanged |
| EfuseBoot.BootExact | src/efpg/efpg_efuse.c:228-395 | After a successful write the read returns what was written if and only if no record from before gets in the way |
| EfuseBoot.BlankReadsBack | src/efpg/efpg_efuse.c:248-268 | The hash reads back for every number of errors if and only if both enable fields read as zero before |
| EfuseBoot.BootWriteExact | src/efpg/efpg_efuse.c:228-395 | For every state of the fuses and all data: each write that succeeds is returned by the next read, whatever fuses fail, if and only if before it neither a hash that takes without error meets an old record, nor one that can take with one recordable error meets a second record |
| EfuseBoot.StaleRecord | src/efpg/efpg_efuse.c:331-381 | Where only a first error is recorded, writing the stored hash again succeeds and reads back wrong |
| EfuseBoot.StaleInstance | src/efpg/efpg_efuse.c:331-381 | An instance with all other fuses blank |
| EfuseBoot.WriteThenReadBoot | src/efpg/efpg_efuse.c:228-395 | If the fuses were not at risk before, in particular with blank enable fields, a successful write reads back all 256 bits |
| Console.GetValid | src/console/console.c:129-144 | Finds the first valid index behind the last one, and none only if there is none |
| Console.OwnsReceive | src/console/console.c:148-160 | At the end of a line each buffer still has exactly one owner, and the next one in turn receives |
| Console.OwnsTake | src/console/console.c:302-305 | The buffer taken is the one received first |
| Console.OwnsRelease | src/console/console.c:315-325 | Giving a buffer back keeps one owner for each, also when the receiver had none |
| Console.ScanInPieces | src/console/console.c:163-281 | Characters that come in several interrupts make the same line as characters that come in one |
| Console.LinesFit | src/console/console.c:163-281 | Every line is printable and fits its buffer with the terminator |
| Console.SplitReturnNewline | src/console/console.c:216-226 | A newline that comes after the interrupt of its carriage return ends another, empty line |
| Console.LinesInPieces | src/console/console.c:163-281 | Characters that come in two interrupts make the lines of the whole input, with one more empty line only where a carriage return is cut from its newline |
| Console.CutExact | src/console/console.c:163-281 | A cut makes no difference to the lines if and only if it does not come between a carriage return and its newline; there it makes exactly one more line |
| ConsoleInput.CommandScanned | src/console/console.c:183-275 | Fewer than 256 characters from 32 to 126, behind any lines given up, and then a 10 or 13, are received verbatim |
| ConsoleInput.TypedExact | src/console/console.c:163-281 | An input makes lines if and only if it was typed as these commands, with newlines 10, 13 or 13 and 10, and with lines given up before them: at a character outside 32..126 or at 256 characters |
| ConsoleInput.ReceiveCommand | src/console/console.c:163-281 | A command typed in one go is handed over as typed |
| ConsoleInput.EnterCommands | src/console/console.c:129-333 | Over every interleaving, when all characters were looked at and none was lost or cut from its newline, the commands received are those typed, each whole and in order |
| Console.HandleLines | src/console/console.c:163-281 | If an interrupt loses nothing, its lines and those of the characters it leaves are the lines of its characters |
| Console.Priv.RxCallback | src/console/console.c:163-281 | Receives line after line as long as it restarts and has a buffer, leaves what comes behind, and loses exactly what is left when no buffer is free |
| Console.Priv.ReceiveLine | src/console/console.c:183-275 | Computes the line scan in the receiving buffer and hands over a complete line; ConsoleInput.CommandScanned and TypedExact say in numbers which line that is |
| Console.Priv.Take | src/console/console.c:302-307 | A semaphore that was waited for always finds a ready command |
| Console.Interleave | src/console/console.c:129-333 | Over every interleaving of interrupts and task steps each buffer has one owner, semaphore count and waits agree with the ready buffers, and commands are executed in the order received; if nothing was lost and no newline was cut from its carriage return, the lines received and those of the characters left are the lines of the whole input |
| HeapTracker.CountFull | src/libc/wrap_malloc.c:142-166 | The entry count equals the table size exactly if no entry is free |
| HeapTracker.CountersExact | src/libc/wrap_malloc.c:142-224 | While the table tracks the allocations, the counters are the number of those it knows and, modulo 2^32, their sizes together |
| HeapTracker.Tracker.AddEntry | src/libc/wrap_malloc.c:142-166 | The hinted search takes the lowest free entry and fails exactly if the table is full |
| HeapTracker.Tracker.DeleteEntry | src/libc/wrap_malloc.c:169-196 | Frees the entry of the pointer and keeps hint, count and sum in agreement with a plain scan |
| HeapTracker.Tracker.UpdateEntry | src/libc/wrap_malloc.c:199-224 | Replaces the entry of the pointer and keeps hint, count and sum |
| HeapTracker.ListsMoved | src/libc/wrap_malloc.c:199-224 | After a move the table still lists exactly the live allocations it knew of |
| HeapTracker.Tracker.Malloc | src/libc/wrap_malloc.c:228-255 | The table lists the new allocation unless it was full |
| HeapTracker.Tracker.Realloc | src/libc/wrap_malloc.c:257-308 | Whatever the real reallocation does through the wrappers, each live allocation stays listed once, with its size; only what it returns for size 0 in place of an allocation is not listed |
| HeapTracker.Tracker.Free | src/libc/wrap_malloc.c:310-324 | Forgets the allocation |

## Left out

- Single-call mode of the XZ decoder, where the output buffer serves as dictionary.
- Failure of allocations in the XZ decoder and in cJSON: allocation succeeds.
- The caller's input buffer of the XZ decoder is constant data that does not share memory with its buffers.
- Sizes and counters of the XZ container are unbounded numbers; wrap-around is modelled where the code relies on it (range and code, CRC, the sums in the hash, the filter position).
- Branch filters other than ARM-Thumb and the CRC64 check, which are not compiled in.
- The integers of dec_vli are added up where the code uses a bitwise or; the bits do not overlap.
- JsonParser.ParseNumber: numbers are exact decimals, mantissa times a power of ten; rounding to double, the conversion to valueint, and the overflow of exponents are not modelled, and neither are the floating-point printing formats.
- JsonParser.ParseValue: the error pointer, and what a failed parse leaves in the nodes before they are freed, are not captured.
- JsonItem.Item: the flags of references and constant names are not part of a node, since parser and printer do not create them.
- JsonPrinter.PrintBuffered: the pointer returned for a nested value is only compared with NULL by its caller and is not modelled.
- JsonPrinter.PrintPreallocated: for lengths that exceed the text by less than 20 it is not stated whether it succeeds; that depends on the last number printed.
- JsonBuffer.PrintBuffer.Ensure: sizes above 2^30, for which the int result of pow2gt overflows, are not modelled.
- Raw JSON items and the functions that edit trees.
- Efuse.Chip.Write: which fuses fail is left open, and so is when the driver is busy; a word read behind the end of the chip shows blank fuses, where the index register of the driver wraps; no region of this code reaches it.
- Efuse.Chip.ReadWords: a shift of a word by 32, which C leaves undefined, gives 0 as on the processor of the chip.
- The other eFuse fields, which are plain reads and writes.
- Console: stopping, echo (disabled) and the execution of commands; the number of buffers is a parameter, two in the source.
- HeapTracker.Tracker.AddEntry: the magic number behind each allocation and the maxima are not part of the statement.
- UART, flash, watchdog and operating system calls are parameters or free choices.
- OTA, image handling, AT commands, power management and the network code.
