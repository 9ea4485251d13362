# coffeeblack-vpn: verified models of its algorithmic cores

A Dafny 4.11 model of the parts of the server that compute rather than glue, with proofs of what each
promises. `dafny verify dfyconfig.toml` checks everything. One module per component:

- **Decompression** (`src/inflate.rs`): `BitReaders`, `HuffmanCodes`, `Huffmans`, `Crc32s`, `CrcPolynomials`, `Lz77`,
  `Sinks`, `Deflate`, `DynamicTables`, `Blocks`, `Inflates`, `Gzip`, `Gunzips`. The fast parts (a 64-bit refill buffer, one flat
  bit-reversed table, a flushed sliding window, a table CRC) are classes, arrays and loops proved against simple
  ones (a bit list, a prefix code, one growing output, bit-serial division). An encoder-side grammar (tokens, headers,
  blocks, members) gives both directions: decoding undoes encoding, and whatever decodes was an encoding. The two meet in
  `Gunzips.GunzipExactly`.
- **QR symbols** (`src/qr.rs`): `Galois`, `ReedSolomon`, `QrTables`, `QrData`, `Interleaving`, `QrGrid`, `QrLayout`,
  `QrFormat`, `QrPatterns`, `QrMatrix`, `QrMasks`, `QrPenalty`,
  `QrSymbol`, `QrCorrection`, `QrStandard`. The symbol is a class over a flat array with 16-bit indices
  and a ghost grid. The main results are the Reed-Solomon roots and distance, `QrSymbol.SymbolRoundTrip`, the in-place mask loop
  of `QrSymbol.Encode`, and `QrCorrection.DamagedRoundTrip`, which puts the distance to use: a reader that corrects errors recovers the
  payload from a damaged symbol. `QrStandard` and `QrMasks` state the tables and patterns by the rules of the standard.
- **Address allocation** (`src/cidr.rs`, `src/db.rs`, `src/api/admin.rs`): `Cidr`, `Allocation`. Addresses are integers.
- **Activity store** (`src/activity.rs`): `Activity`, `ActivityRuns`, `ActivityPoll`. Days and client ids are integers; a ledger
  beside the store records what was sampled and removed.
- **Bounded draws** (`src/rng.rs`): `Rng`, over an arbitrary stream of 64-bit words.
- **Per-client firewall chain** (`src/firewall.rs`): `Firewall`, from parsed targets to rules, and packets under first match.
- **Log filter** (`src/log.rs`): `LogFilter`, from the filter text to the answer for one event.

`Words` holds machine words as numbers with bitwise operators, `BitLists` the correspondence between bytes and bits, `Indices` bytes as
table indices, `Finite` sizes of sets, `Sequences` filled sequences, `Wrappers` the option and result types.

Where the code and its comments differ, the model follows the code:

- `next_ipv6` is described as skipping the network address. It skips the address as written, so a network written with host bits
  hands out its base address (`Allocation.BaseAddressOffered`).
- `init` in the log module is described as idempotent. A second call with another text keeps the filter and replaces only the
  pre-check level; `LogFilter.SecondInit` says exactly when that shows, `LogFilter.SecondInitDiffers` gives an input.
- `range_incl_i64` is described as safe for the full range. The full range has span 0 after the cast and panics, and with
  overflow checks on, offsets of 2^63 and more panic too (`Rng.PanicIff`); with wrapping arithmetic those offsets come out right
  (`Rng.SumIs`).
- `retain_clients` is described as clearing a deleted peer within one interval. A pass returns before it when its dump is
  empty or fails and when the client query fails, so the claim holds for the next pass that does not
  (`ActivityPoll.DeletedPeerVanishes`, `ActivityPoll.EarlyReturnKeeps`).
- The eviction comment speaks of dropping the oldest day; when the clock has gone back that is the day just recorded,
  and `ActivityRuns.TickSurvives` says exactly when (`ActivityRuns.BackwardClock`).
- `encode_data` pads to a byte boundary after the terminator. For a payload that fits, the terminator always ends on one, so that
  branch is never taken; `QrData.EncodeData` proves it dead.

## Model

| member | source | states |
|---|---|---|
| BitReaders.BitReader.constructor | src/inflate.rs:76-83 | A new reader has every bit of its data unread. |
| BitReaders.BitReader.Refill | src/inflate.rs:87-93 | Loading bytes into the 64-bit buffer changes nothing that is unread; afterwards 57 bits are buffered or the input is used up. |
| BitReaders.BitReader.Peek | src/inflate.rs:99-104 | The next `n` unread bits as a number, zero-filled past the end, without consuming any. |
| BitReaders.BitReader.Consume | src/inflate.rs:108-118 | Drops exactly `n` unread bits, or fails and drops none exactly when fewer remain. |
| BitReaders.BitReader.ReadBits | src/inflate.rs:122-129 | The next `n` unread bits as a number; an over-read fails and consumes nothing. |
| BitReaders.BitReader.Align | src/inflate.rs:132-136 | Advances to the next byte boundary and no further. |
| BitReaders.BitReader.Bytes | src/inflate.rs:139-152 | Returns the `n` bytes after the next byte boundary, buffered ones included, exactly when that many are left; else nothing is consumed. |
| BitReaders.BitReader.BytePos | src/inflate.rs:155-157 | The bits read so far divided by eight, rounded up. |
| HuffmanCodes.KraftFits | src/inflate.rs:200-208 | If the whole code fits, every shorter prefix of the length classes fits: the running Kraft remainder never goes negative. |
| Huffmans.NeverRecovers | src/inflate.rs:203-208 | Once the running remainder is negative the code is over-subscribed, so failing early is right. |
| HuffmanCodes.CodeFits | src/inflate.rs:214-220 | Every canonical code of a fitting length vector fits in its own length. |
| HuffmanCodes.IntervalsInOrder | src/inflate.rs:214-220 | As dyadic intervals, the codes of a shorter length end before those of a longer one begin. |
| HuffmanCodes.PrefixFree | src/inflate.rs:200-220 | No code of a fitting length vector is a prefix of another symbol's code (RFC 1951, section 3.2.2). |
| HuffmanCodes.LookupUnique | src/inflate.rs:252-264 | At most one symbol's code begins a given bit string. |
| HuffmanCodes.LookupOfCode | src/inflate.rs:252-264 | A stream that starts with a symbol's code yields that symbol and leaves exactly what follows the code. |
| HuffmanCodes.DecodableIff | src/inflate.rs:252-264 | A long enough stream starts with some code iff its leading value lies below the space the codes claim. |
| HuffmanCodes.CompleteDecodes | src/inflate.rs:210-212 | Under a complete code every long enough stream decodes. |
| Huffmans.CountLengths | src/inflate.rs:181-188 | The per-length counts, or failure exactly when a length exceeds 15. |
| Huffmans.LongestLength | src/inflate.rs:190 | The largest length in use, 0 for an empty code. |
| Huffmans.CheckKraft | src/inflate.rs:200-212 | Accepts exactly the complete codes and the single-symbol ones; says whether a rejected code is over-subscribed or incomplete. |
| Huffmans.UsedIsAll | src/inflate.rs:209 | The counts of all lengths add up to the symbols that have a code. |
| Huffmans.FirstCodes | src/inflate.rs:214-220 | The per-length counters start at the canonical first codes. |
| Huffmans.ReverseBits | src/inflate.rs:268-274 | The reversed value has, least significant bit first, the bits of the argument most significant first. |
| Huffmans.Replicate | src/inflate.rs:237-241 | Writes exactly the slots congruent to the reversed code, leaves all others alone. |
| Huffmans.WriteSymbol | src/inflate.rs:228-242 | Extends a table correct for the symbols below `sym` to one correct for `sym` too. |
| Huffmans.FillTable | src/inflate.rs:222-243 | Every slot holds the symbol whose reversed code matches the slot's low bits, or 0 when no code does. |
| Huffmans.SlotsDisjoint | src/inflate.rs:234-241 | No two symbols write the same table slot. |
| Huffmans.CompleteFillsTable | src/inflate.rs:222-242 | A complete code leaves no empty slot. |
| Huffmans.New | src/inflate.rs:180-248 | Succeeds exactly on the accepted length vectors, with a table that represents the code; names the length and over-subscription errors exactly. |
| Huffmans.Huffman.Decode | src/inflate.rs:252-264 | Reads exactly the symbol whose code begins the unread bits and consumes exactly its length; fails, consuming nothing, when no code does or the stream is cut inside it. |
| Crc32s.CodedStep | src/inflate.rs:371-373 | Shifting right halves the register, and a step of the table loop keeps it in 32 bits. |
| Crc32s.TableEntry | src/inflate.rs:370-374 | A table entry is eight steps of reflected division by 0xEDB88320. |
| Crc32s.CrcTable | src/inflate.rs:365-378 | All 256 entries are those of the division. |
| Crc32s.FeedWord | src/inflate.rs:380-386 | Feeding bits one at a time equals XOR-ing the word in and dividing once, for every start state. |
| Crc32s.TableStep | src/inflate.rs:382-384 | The table step equals feeding the byte bit by bit, for every byte and every start state. |
| Crc32s.Crc32Update | src/inflate.rs:380-386 | The table loop equals the bit-serial division, for every input and start state. |
| Crc32s.CrcBytesAppend | src/inflate.rs:338-356 | Folding over consecutive chunks equals one pass over their concatenation. |
| Crc32s.Crc32 | src/inflate.rs:389-391 | The checksum of a buffer in the gzip convention is the bit-serial one. |
| CrcPolynomials.StepReduces | src/inflate.rs:370-374 | A step of the division multiplies the register, read as a polynomial, by x and subtracts the generator, given by its exponents, if x^32 appears. |
| CrcPolynomials.RegisterIsRemainder | src/inflate.rs:380-386 | For every message and start state the register and the dividend differ by a multiple of the generator. |
| CrcPolynomials.RemainderUnique | src/inflate.rs:380-386 | No other polynomial of degree below 32 does. |
| CrcPolynomials.ChecksumIsRemainder | src/inflate.rs:380-391 | The checksum, complemented, is the one polynomial of degree below 32 that completes 32 ones and the message to a multiple of the generator (RFC 1952, section 8). |
| Lz77.CopyRepeats | src/inflate.rs:319-330 | A copy leaves the old output in place, and every new byte equals the one `dist` before it, overlapping copies included. |
| Lz77.CopyInSuffix | src/inflate.rs:319-330 | A copy that reaches back only into a retained suffix does not depend on what was before it. |
| Sinks.Sink.FlushOld | src/inflate.rs:338-349 | Written bytes followed by the buffer are unchanged, at least the last 32768 bytes stay buffered, and the running CRC covers what was written. |
| Sinks.Sink.Push | src/inflate.rs:301-307 | Appends one byte to the unbounded output, flush or no flush. |
| Sinks.Sink.Extend | src/inflate.rs:309-315 | Appends the bytes to the unbounded output. |
| Sinks.Sink.CopyBack | src/inflate.rs:319-335 | For distances up to 32768 succeeds exactly when the unbounded output reaches back that far, and then appends the same bytes as a copy on it; a failure changes nothing. |
| Sinks.Sink.Finish | src/inflate.rs:352-357 | Everything pushed has been written in order; the length and the CRC-32 reported are those of all of it. |
| Deflate.LengthSymbol | src/inflate.rs:38-45 | Every length symbol's base and extra bits in closed form: eight single lengths, then four rows to each number of extra bits, then 258 alone. |
| Deflate.DistSymbol | src/inflate.rs:47-55 | Every distance symbol's base and extra bits in closed form: four single distances, then two rows to each number of extra bits. |
| Deflate.LengthRows | src/inflate.rs:38-45 | The length rows tile 3 to 258 exactly, each starting where the one before it ends; only symbol 285, 258 alone, overlaps the row before it (RFC 1951, section 3.2.5). |
| Deflate.DistRows | src/inflate.rs:47-55 | The distance rows tile 1 to 32768 exactly, each starting where the one before it ends. |
| Deflate.MatchRanges | src/inflate.rs:518-526 | A match token has length 3 to 258 and distance 1 to 32768. |
| Deflate.TokenFor | src/inflate.rs:518-526 | Every length and distance in range has a token. |
| Deflate.ItemOfToken | src/inflate.rs:514-527 | The encoding of a token is read back as that token, leaving the rest. |
| Deflate.ItemSound | src/inflate.rs:514-527 | Whatever is read as a token was the encoding of that token. |
| Deflate.SymbolsOfTokens | src/inflate.rs:507-531 | Any token list, encoded and ended by symbol 256, appends exactly its LZ77 expansion, or fails when that does. |
| Deflate.SymbolsSound | src/inflate.rs:507-531 | Whatever a successful symbol run read is the encoding of a token list with that expansion. |
| Deflate.SymbolsShrink | src/inflate.rs:513-530 | A symbol run consumes at least one bit and only appends. |
| DynamicTables.OrderIsPermutation | src/inflate.rs:57-59 | The code-length order lists 0 to 18 once each. |
| DynamicTables.OrderRule | src/inflate.rs:57-59 | The order by its rule: the three repeat codes, zero, then outwards from 8 by turns (RFC 1951, section 3.2.7). |
| DynamicTables.ClOfToken | src/inflate.rs:465-498 | A code-length token is read back from its symbol and extra bits. |
| DynamicTables.LengthsOfTokens | src/inflate.rs:461-499 | Any run-length encoding is read back as its expansion, repeats across the literal/distance boundary included. |
| DynamicTables.LengthsSound | src/inflate.rs:461-499 | Whatever is read as lengths was the encoding of tokens that expand to them. |
| DynamicTables.ClensOfBits | src/inflate.rs:455-458 | The code-length code's own lengths are read back, absent ones as zero. |
| DynamicTables.TablesOfHeader | src/inflate.rs:447-504 | Every valid dynamic header, however its two tables were run-length encoded, is read back as those tables. |
| DynamicTables.TablesSound | src/inflate.rs:447-504 | Every accepted dynamic header is the encoding of a valid header with the tables returned. |
| Blocks.FixedCodes | src/inflate.rs:398-405 | The fixed literal and distance codes are accepted codes; the literal one has symbol 256. |
| Blocks.FixedLitCodes | src/inflate.rs:398-405 | Every literal/length symbol's fixed code, bit for bit: from 00110000, 110010000, 0000000 and 11000000 on in its four ranges (RFC 1951, section 3.2.6). |
| Blocks.FixedDistCodes | src/inflate.rs:398-405 | Every distance symbol's fixed code is its number in five bits. |
| Blocks.StoredOfBits | src/inflate.rs:414-424 | A stored block's length, its complement and its bytes are read back as the bytes. |
| Blocks.StoredSound | src/inflate.rs:414-424 | Whatever a stored block yields was stored with a matching complement. |
| Blocks.BodyOfBlock | src/inflate.rs:413-439 | The body of each of the three block kinds decodes to what the block stands for. |
| Blocks.InflateOfBlocks | src/inflate.rs:409-444 | Any list of valid blocks decodes to its expansion and leaves the bits behind it. |
| Blocks.InflateSound | src/inflate.rs:409-444 | Every successful decode read the encoding of a list of valid blocks with that expansion. |
| Inflates.Take | src/inflate.rs:122-129 | A bit read inside the decoder agrees with the bit list, failures included. |
| Inflates.ReadClenLengths | src/inflate.rs:455-458 | The loop over the code-length order computes the specified lengths. |
| Inflates.ReadClToken | src/inflate.rs:465-498 | Reads exactly the next code-length token. |
| Inflates.ApplyToken | src/inflate.rs:466-498 | Writing a token into the zeroed array extends the lengths so far by its expansion, or fails when it has no predecessor or overruns. |
| Inflates.ReadCodeLengths | src/inflate.rs:461-499 | The array loop computes the specified lengths and consumes the same bits. |
| Inflates.ReadCountedTables | src/inflate.rs:455-503 | Both tables represent the codes the specification reads. |
| Inflates.ReadDynamicTables | src/inflate.rs:447-504 | The whole dynamic header: same tables, same bits consumed, failure exactly when the specification fails. |
| Inflates.ReadMatch | src/inflate.rs:518-526 | Length and distance of the next match. |
| Inflates.InflateSymbols | src/inflate.rs:507-531 | The decode loop appends exactly what the specification does to the unbounded output and fails exactly when it does. |
| Inflates.FixedLiteralLengths | src/inflate.rs:398-405 | The four filled ranges are the fixed code. |
| Inflates.InflateStored | src/inflate.rs:414-424 | A stored block after alignment: same output, same bits. |
| Inflates.InflateBlocks | src/inflate.rs:409-444 | The block loop terminates on every stream and agrees with the specification on output, bits consumed and failure. |
| Gzip.FlagMasks | src/inflate.rs:553-574 | The four mask tests are the four header flag bits. |
| Gzip.ReservedMask | src/inflate.rs:549 | The reserved-bits test. |
| Gzip.ParseHeader | src/inflate.rs:538-582 | The offset of the deflate stream exactly when the header is well formed, no slice out of range on any input. |
| Gzip.HeaderOfBytes | src/inflate.rs:538-582 | Every well-formed header, with any of its optional fields, is parsed to its own length. |
| Gzip.HeaderSound | src/inflate.rs:538-582 | Whatever the parser accepts is a well-formed header of that length. |
| Gzip.Le32RoundTrip | src/inflate.rs:608-610 | Four trailer bytes are a number iff they are its little-endian encoding. |
| Gunzips.MemberOfBytes | src/inflate.rs:593-622 | A well-formed member decodes to its payload and its own length, whatever follows. |
| Gunzips.MemberSound | src/inflate.rs:593-622 | An accepted member is well formed: its trailer holds the CRC-32 and the length modulo 2^32 of its payload. |
| Gunzips.GunzipOfMembers | src/inflate.rs:588-629 | Concatenated well-formed members, with any zero padding, decode to the concatenated payloads. |
| Gunzips.GunzipSound | src/inflate.rs:588-629 | Whatever is accepted is a concatenation of well-formed members and zeros. |
| Gunzips.GunzipExactly | src/inflate.rs:588-629 | The input decompresses to `out` iff it is one or more well-formed members with payloads `out`, followed by zeros (RFC 1952, section 2.3). |
| Gunzips.InflateMember | src/inflate.rs:595-604 | One member's stream: the decoded bytes are written, with their length, CRC-32 and the byte offset behind the stream. |
| Gunzips.GunzipMember | src/inflate.rs:593-622 | One member with its trailer checks, failing exactly when the member is malformed. |
| Gunzips.GunzipToWriter | src/inflate.rs:588-629 | Total on every byte string: succeeds exactly when the input is well formed, and has then written all payloads and returns their length. |
| Galois.XTimeWord | src/qr.rs:272-275 | The shift-and-reduce step of the table loop is multiplication by x modulo 0x11d. |
| Galois.MulAlpha | src/qr.rs:263-290 | Multiplying by the k-th power of x is k-fold multiplication by x. |
| Galois.MulAddLeft | src/qr.rs:284-290 | Multiplication distributes over XOR. |
| Galois.MulComm | src/qr.rs:284-290 | Multiplication commutes. |
| Galois.MulAssoc | src/qr.rs:284-290 | Multiplication is associative. |
| Galois.OrderIs255 | src/qr.rs:268-279 | No smaller positive power of x than the 255th is 1. |
| Galois.LogExists | src/qr.rs:268-279 | Every nonzero element is a power of x. |
| Galois.MulByLogs | src/qr.rs:284-290 | Adding logarithms modulo 255 multiplies. |
| ReedSolomon.GfTables | src/qr.rs:263-282 | The loop fills the power table and, for every nonzero element, its logarithm. |
| ReedSolomon.GfMul | src/qr.rs:284-290 | Table multiplication, zero operands included, is field multiplication. |
| ReedSolomon.GeneratorRoots | src/qr.rs:294-307 | The generator polynomial of degree n is zero at exactly the first n powers of x. |
| ReedSolomon.GeneratorMonic | src/qr.rs:294-307 | Its leading coefficient is 1. |
| ReedSolomon.MultiplyLinear | src/qr.rs:299-304 | The inner loop multiplies by one linear factor. |
| ReedSolomon.GeneratorPoly | src/qr.rs:294-307 | The loop computes the generator polynomial. |
| ReedSolomon.RegisterTurn | src/qr.rs:314-319 | One turn of the shift register. |
| ReedSolomon.ComputeEcCodewords | src/qr.rs:310-322 | The register loop computes the remainder. |
| ReedSolomon.RemainderAtRoot | src/qr.rs:310-322 | At any root of a monic divisor the remainder has the value of the shifted block. |
| ReedSolomon.CodewordRoots | src/qr.rs:294-322 | Data followed by its error-correction codewords is zero at every one of the first `ecLen` powers of x (ISO/IEC 18004:2006, section 6.5). |
| ReedSolomon.SparseIsZero | src/qr.rs:294-322 | A polynomial zero at n consecutive powers of x with at most n nonzero coefficients is zero. |
| ReedSolomon.CodewordDistance | src/qr.rs:294-322 | Two different blocks' codewords differ in more than `ecLen` places. |
| ReedSolomon.CodewordsUnique | src/qr.rs:310-322 | The error-correction codewords are the only ones with those roots. |
| QrTables.ChooseVersion | src/qr.rs:194-202 | The smallest version that holds the payload, or none exactly when no version does. |
| QrTables.CapacityBounds | src/qr.rs:179-191 | A payload that fits never overflows its length field. |
| QrTables.RowTotals | src/qr.rs:50-138 | In all 160 table rows data and error-correction codewords add up to the version's total. |
| QrTables.CodewordsFit | src/qr.rs:50-138 | Width squared less the function modules leaves the codeword bits and at most seven spare modules, in all 40 versions and 4 levels. |
| QrStandard.RowsEven | src/qr.rs:50-138 | Every one of the 160 rows follows from its number of blocks and error-correction codewords per block: the version's codewords are dealt out as evenly as can be, shorter blocks first (ISO/IEC 18004:2006, section 6.5.1). |
| QrStandard.HoldsIs | src/qr.rs:179-191 | A payload fits iff its bytes and a header of two codewords up to version 9, three beyond, are at most the data codewords. |
| QrStandard.CentresRule | src/qr.rs:141-176 | The alignment centres of versions 2 to 40 follow from even spacing: the gaps but the first are the least even one that suffices, but for version 32. |
| QrData.BitBuf.Push | src/qr.rs:216-230 | Appends the low `width` bits of the value, most significant first, to the bits held. |
| QrData.EncodeData | src/qr.rs:233-255 | Mode, count, bytes, terminator, padding to a byte and the alternating pad codewords fill the capacity exactly. |
| QrData.PayloadRoundTrip | src/qr.rs:233-255 | A reader of mode, count and bytes recovers every payload from its data codewords. |
| QrStandard.SegmentIs | src/qr.rs:233-240 | The data codewords start with the bits 0100, the length in 8 bits up to version 9 and 16 beyond, and the bytes. |
| QrStandard.PadsAlternate | src/qr.rs:248-254 | Padding codewords are 236 and 17 by turns, 236 first. |
| Interleaving.SplitBlocks | src/qr.rs:330-339 | The block loop cuts the data into consecutive blocks of the tabled sizes. |
| Interleaving.ComputeEcBlocks | src/qr.rs:341 | Each block gets its own error-correction codewords. |
| Interleaving.InterleaveColumns | src/qr.rs:343-357 | The column loop emits every block's i-th codeword in turn, skipping exhausted blocks. |
| Interleaving.Interleave | src/qr.rs:326-358 | The whole interleaved codeword sequence. |
| Interleaving.InterleavedPermutes | src/qr.rs:343-357 | Interleaving is a permutation of the blocks' contents. |
| Interleaving.CodewordsPermute | src/qr.rs:326-358 | The symbol's codewords are a permutation of data and error-correction codewords, of the version's total length. |
| Interleaving.InterleaveRoundTrip | src/qr.rs:326-358 | De-interleaving by the tables recovers the data codewords. |
| QrGrid.MaskInvolution | src/qr.rs:531-558 | Every mask applied twice restores the grid. |
| QrMasks.Chequerboard | src/qr.rs:531-544 | Mask 0 alternates along rows and columns, from the corner. |
| QrMasks.Rows | src/qr.rs:531-544 | Mask 1 is constant along rows and alternates down columns. |
| QrMasks.Columns | src/qr.rs:531-544 | Mask 2 is every third column. |
| QrMasks.Diagonals | src/qr.rs:531-544 | Mask 3 is every third diagonal. |
| QrMasks.Cells | src/qr.rs:531-544 | Mask 4 is a chequerboard of cells three wide and two high. |
| QrMasks.MaskGridShows | src/qr.rs:548-558 | Masking inverts exactly the data modules of the mask's pattern; masks 5 and 6 are where the product of column and row is a multiple of six and less than three modulo six, mask 7 differs from 6 exactly where sum and product differ in parity. |
| QrGrid.ZigzagVisits | src/qr.rs:507-527 | The walk from any column pair visits each module of the columns left of it, except column 6, exactly once. |
| QrGrid.ZigzagComplete | src/qr.rs:507-527 | For every odd width of 7 or more the walk visits every module outside column 6 exactly once (narrower ones miss column 0; the least symbol is 21 wide). |
| QrGrid.PlaceKeeps | src/qr.rs:502-528 | Placing bits never changes a function module or anything off the walk. |
| QrGrid.ReadOfPlace | src/qr.rs:502-528 | Reading the free modules along the walk returns the placed bits. |
| QrGrid.TrialSame | src/qr.rs:746-757 | A masked and stamped symbol does not depend on earlier format information. |
| QrGrid.TrialRestores | src/qr.rs:746-754 | Masking, stamping and unmasking changes format modules only. |
| QrLayout.CentresFine | src/qr.rs:459-465 | The alignment centres of all versions are even, far apart, and clear of the finder patterns. |
| QrLayout.ColumnSixIsFunction | src/qr.rs:445-450 | Column 6 holds function modules only. |
| QrLayout.FreeModulesSuffice | src/qr.rs:502-528 | In every version and level the walk meets at least as many free modules as there are codeword bits. |
| QrFormat.ComputeRemainder | src/qr.rs:683-688 | The division loop leaves a remainder that differs from its argument by a multiple of the generator over GF(2), for every argument and generator. |
| QrFormat.RemainderCongruent | src/qr.rs:683-688 | Argument and remainder together are a sum of shifted copies of the generator. |
| QrFormat.RemainderBounds | src/qr.rs:681-700 | For the two generators in use the remainder has fewer bits than the generator: 10 for the format word, 12 for the version word. |
| QrFormat.FormatInfoBits | src/qr.rs:679-690 | Without the standard mask the word is a multiple of 0x537 whose five high bits are level and mask: a BCH(15,5) codeword (ISO/IEC 18004:2006, section 6.9). |
| QrFormat.VersionInfoBits | src/qr.rs:693-702 | For every six-bit version the word is a multiple of 0x1f25 whose six high bits are the version: a BCH(18,6) codeword (ISO/IEC 18004:2006, section 6.10). |
| QrFormat.FormatRead | src/qr.rs:679-690 | Level and mask are read back from the five high bits of the format word. |
| QrStandard.ZeroFormat | src/qr.rs:679-690 | The format word of level M and mask 0, which has no data bit set, is the standard mask 101010000010010. |
| QrPatterns.PictureDrawn | src/qr.rs:423-499 | The drawing sequence leaves every finder, timing, alignment, version and format module in place and in colour, and every other module untouched; overlaps agree. |
| QrPatterns.PatternClear | src/qr.rs:466-479 | An alignment pattern touches no finder, format or version module, and agrees with the timing lines it crosses. |
| QrPatterns.TableShows | src/qr.rs:466-479 | The pattern loop leaves each kept pattern in full and changes nothing else. |
| QrPatterns.PictureFunctions | src/qr.rs:423-499 | The function modules of the drawn picture are exactly those of the version. |
| QrStandard.FinderPicture | src/qr.rs:429-443 | A finder pattern is its 7x7 picture, with a light separator. |
| QrStandard.AlignmentPicture | src/qr.rs:471-476 | An alignment pattern is its 5x5 picture. |
| QrStandard.TimingAlternates | src/qr.rs:445-450 | The timing lines alternate, dark at 8. |
| QrMatrix.IndexFits | src/qr.rs:409-417 | `y * width + x` and its product stay inside 16 signed bits for every width up to 177. |
| QrMatrix.SlotInjective | src/qr.rs:409-417 | Different modules have different indices. |
| QrMatrix.Matrix.constructor | src/qr.rs:391-397 | A blank symbol of the version's width. |
| QrMatrix.Matrix.Get | src/qr.rs:410-412 | The module of the grid at that position. |
| QrMatrix.Matrix.Set | src/qr.rs:415-417 | Changes that module of the grid and no other. |
| QrMatrix.Matrix.DrawFinderAt | src/qr.rs:429-443 | One finder pattern with the part of its separator inside the symbol. |
| QrMatrix.Matrix.DrawTimingLines | src/qr.rs:445-450 | Both timing lines. |
| QrMatrix.Matrix.DrawPatternAt | src/qr.rs:471-476 | One alignment pattern. |
| QrMatrix.Matrix.DrawAlignment | src/qr.rs:458-479 | All alignment patterns except the three on finders. |
| QrMatrix.Matrix.DrawVersionInfo | src/qr.rs:481-491 | Both copies of the version information, bit by bit. |
| QrMatrix.Matrix.DrawFormatInfo | src/qr.rs:561-582 | Both copies of the format information and the dark module, over one fixed set of modules. |
| QrMatrix.Matrix.DrawFunctionPatterns | src/qr.rs:423-499 | A blank symbol becomes the complete picture of its version. |
| QrMatrix.Matrix.DrawCodewords | src/qr.rs:502-528 | The nested loops place exactly the codeword bits along the zigzag. |
| QrMatrix.Matrix.ApplyMask | src/qr.rs:548-558 | Inverts exactly the data modules the mask selects. |
| QrPenalty.LineRuns | src/qr.rs:590-610 | The run loop with its sentinel scores every maximal run of a line, the last included. |
| QrPenalty.AdjacentPenalty | src/qr.rs:587-613 | Rule 1 over all lines of one direction. |
| QrPenalty.BlockPenalty | src/qr.rs:616-630 | Three for every uniform 2x2 block. |
| QrPenalty.FinderPenalty | src/qr.rs:634-657 | Forty for every finder-like pattern with four light modules on a side. |
| QrStandard.PatternIsFinder | src/qr.rs:637 | What the rule looks for is the middle row and column of a finder pattern. |
| QrPenalty.BalancePenalty | src/qr.rs:661-665 | The distance of the dark share from a half, the count taken over the flat vector. |
| QrPenalty.ComputePenalty | src/qr.rs:667-674 | The sum of the four rules, a function of the picture alone. |
| QrPenalty.PenaltyBound | src/qr.rs:745 | Every symbol's score is below the initial best score. |
| QrSymbol.Build | src/qr.rs:705-713 | Fails exactly when no version holds the payload; else the unmasked symbol of the smallest version. |
| QrSymbol.MaskShown | src/qr.rs:719-727 | Against the unmasked symbol exactly the data modules of the mask's pattern are inverted; format information covers none. |
| QrSymbol.EncodeWithMask | src/qr.rs:719-727 | Fails exactly on a mask above 7 or a payload too long; else the symbol under that mask, which differs from the unmasked one in exactly the data modules of the mask's pattern, and from whose colours a reader recovers the payload. |
| QrSymbol.MaskPenalty | src/qr.rs:731-733 | The score of that symbol. |
| QrSymbol.TrialIsFresh | src/qr.rs:746-754 | Each in-place trial shows the symbol a fresh build under that mask would. |
| QrSymbol.CodewordsReadBack | src/qr.rs:502-558 | The codewords read off an undamaged picture are the placed ones. |
| QrSymbol.Encode | src/qr.rs:739-758 | The in-place loop ends with the symbol a fresh build gives for the lowest-numbered mask of least penalty; it shows that mask's pattern against the unmasked symbol, and a reader of its colours recovers the payload. |
| QrSymbol.SymbolRoundTrip | src/qr.rs:705-727 | A reader given only the colours (version from the width, level and mask from the format modules) recovers every payload that fits, under every mask (ISO/IEC 18004:2006, sections 6.4 to 6.9). |
| QrCorrection.ExplanationUnique | src/qr.rs:294-322 | At most one block of its length has a codeword within half of `ecLen` places of what was received. |
| QrCorrection.BlockCorrected | src/qr.rs:310-322 | Nearest-codeword decoding recovers a block when at most half as many codewords are wrong as there are for correction. |
| QrCorrection.CodewordsCorrected | src/qr.rs:326-358 | Correcting block by block after de-interleaving recovers all data codewords when no block is damaged further than that. |
| QrCorrection.BlockDamage | src/qr.rs:343-357 | Interleaving never concentrates damage: no block has more wrong codewords than the symbol. |
| QrCorrection.PictureDamage | src/qr.rs:502-558 | Through unmasking and the zigzag, no more codewords are wrong than modules outside the function patterns. |
| QrCorrection.CorrectedRoundTrip | src/qr.rs:705-727 | A correcting reader of the colours recovers the payload whenever the format is read right and no block is damaged beyond correction. |
| QrCorrection.DamagedRoundTrip | src/qr.rs:705-727 | A correcting reader recovers every payload, under every mask, from a picture with any `ecLen / 2` modules wrong, wherever they lie, and any damage to function patterns that leaves the format readable. |
| QrCorrection.IntactRoundTrip | src/qr.rs:705-727 | The correcting reader recovers every payload from an undamaged picture. |
| Cidr.MaskIs | src/cidr.rs:89-95 | The mask is 2^width less the size of the host part, /0 included. |
| Cidr.BlockIs | src/cidr.rs:98-105 | The network is the address with its host bits cleared; the broadcast address is the last of the block. |
| Cidr.ContainsRange | src/cidr.rs:108-110 | An address is contained iff it lies between network and broadcast address. |
| Cidr.HostsAre | src/cidr.rs:115-127 | The hosts are all contained addresses, except the first and last of an IPv4 network shorter than /31; their number. |
| Cidr.HostRange | src/cidr.rs:115-127 | The range starts with exactly the hosts to come; the same for IPv6 without exclusions. |
| Cidr.AddressRange.Next | src/cidr.rs:156-170 | Yields the rest in order and ends, even when the last address is the last of the space; nothing wraps. |
| Allocation.NextIpv4 | src/db.rs:3672-3685 | First fit over the hosts other than `addr() + 1`. |
| Allocation.NextIpv6 | src/db.rs:3688-3702 | First fit over the addresses other than `addr()` and `addr() + 1`. |
| Allocation.NextIsLeast | src/db.rs:3672-3702 | The address returned is the least host neither reserved nor used; failure exactly when there is none. |
| Allocation.Pigeonhole | src/db.rs:3678-3684 | Allocation cannot fail while fewer addresses are used than there are unreserved hosts. |
| Allocation.BaseAddressOffered | src/db.rs:3690-3697 | The base address of an IPv6 network is kept back iff the network is written without host bits; otherwise it can be handed out. |
| Allocation.CollectUsed | src/db.rs:3136-3153 | The used addresses of the rows. |
| Allocation.Clients.CreateClientAllocIp | src/db.rs:3129-3164 | Inserts a row with both first-fit addresses, or leaves the table unchanged when either family has none left. |
| Allocation.Clients.DeleteClient | src/db.rs:3194-3199 | Removes exactly the rows with that id; reports whether there was one. |
| Allocation.RunKeeps | src/db.rs:3129-3199 | Over any run of creates and deletes, client addresses stay pairwise distinct, inside their networks and off the server address. |
| Allocation.EveryRun | src/db.rs:3129-3199 | The same for every run from an empty table. |
| Allocation.FirstFreeAfter | src/api/admin.rs:1043-1053 | First fit after handing out the first k available addresses is the next one. |
| Allocation.ChangeCidr | src/api/admin.rs:1038-1061 | Client i gets the i-th available address of each family; fails exactly when a network has fewer than there are clients. |
| Allocation.ReassignmentAllocated | src/api/admin.rs:1038-1061 | The reassigned table is consistent iff IPv6 is given or no client had an IPv6 address: without an IPv6 network old IPv6 addresses stay. |
| Activity.ActivityStore.RecordSamples | src/activity.rs:180-216 | Folds each sample into its client's entry in turn: clamped deltas, new baselines, one hit in the day's bucket, oldest days evicted over the limit. |
| Activity.ActivityStore.PruneBefore | src/activity.rs:249-260 | Trims every history, drops entries left with nothing, and returns the number of buckets removed. |
| Activity.ActivityStore.Purge | src/activity.rs:272-277 | Empties the store and returns the number of buckets discarded. |
| Activity.ActivityStore.ForgetClient | src/activity.rs:281-283 | Removes that entry only. |
| Activity.ActivityStore.RetainClients | src/activity.rs:296-302 | Keeps exactly the listed clients' entries and counts the others. |
| Activity.OlderIs | src/activity.rs:253-256 | What pruning removes is exactly the days before the cutoff. |
| Activity.PrunedIs | src/activity.rs:249-260 | Pruning keeps an entry iff it holds a day from the cutoff on or has ever booked a byte, keeps exactly its days from the cutoff on, and leaves its totals alone. |
| Activity.BumpKeeps | src/activity.rs:201-204 | Buckets stay in chronological order, and at most one is added. |
| Activity.BumpFind | src/activity.rs:201-204 | The day's bucket grows by one hit and the bytes; every other day is unchanged. |
| Activity.BumpPlace | src/activity.rs:201-204 | The day has a bucket afterwards, added only if it had none, and is the first day exactly when it is the oldest. |
| ActivityRuns.FoldConserves | src/activity.rs:185-213 | One sample keeps the books of an entry. |
| ActivityRuns.RunConserves | src/activity.rs:180-302 | Over every run each live entry's totals are the sum of the positive differences between its successive readings, and totals and sample count equal its buckets plus what was removed. |
| ActivityRuns.EveryRun | src/activity.rs:180-302 | The same from an empty store, with no entry over 366 days. |
| ActivityRuns.SteadyTotals | src/activity.rs:180-302 | After any run, where no reading fell, the totals are the last reading less the first. |
| ActivityRuns.NoRiseNoBytes | src/activity.rs:185-204 | A tick whose readings are no higher than the baselines adds a hit to its day and no byte to a total or to a day it keeps. |
| ActivityRuns.RiseIsBooked | src/activity.rs:185-204 | A tick with a rise adds exactly the rise to the totals and to its day. |
| ActivityRuns.TotalsNeverFall | src/activity.rs:180-302 | While an entry lives no operation lowers its totals. |
| ActivityRuns.PurgeReanchors | src/activity.rs:262-277 | After a purge the next tick books no bytes. |
| ActivityRuns.BackwardClock | src/activity.rs:206-213 | On a full entry a tick dated before every kept day leaves the buckets as they were. |
| ActivityRuns.TickSurvives | src/activity.rs:201-213 | The day of a tick is kept iff the entry was not both full and all of later days. |
| ActivityRuns.FoldEvicts | src/activity.rs:206-213 | A tick evicts at most one day, the oldest of those held after it, and only from a full entry without that day. |
| ActivityRuns.SeriesAfterTick | src/activity.rs:125-129 | For every entry within the limit, full ones included, a series shows the tick in its day, zeros in the day it evicted, and every other day unchanged. |
| ActivityPoll.CollectSamples | src/activity.rs:404-415 | A sample for each client whose key is listed with a handshake, in client order. |
| ActivityPoll.SampleIs | src/activity.rs:404-415 | A client is sampled iff the first peer with its key has shaken hands, and the sample holds that peer's received and sent bytes, in that order. |
| ActivityPoll.PollOnce | src/activity.rs:388-424 | Nothing when the dump or the client query fails or the dump is empty; otherwise reconcile with the client list, then record, counting the samples. |
| ActivityPoll.ReconcileIs | src/activity.rs:296-302 | Reconciling keeps exactly the entries of the clients listed, as they are. |
| ActivityPoll.DeletedPeerVanishes | src/activity.rs:285-302 | A client deleted before a pass that gets as far as reconciling begins is gone once it has, and stays gone, however other events interleave. |
| ActivityPoll.UnlistedPeerVanishes | src/activity.rs:394-399 | So is one deleted between the dump and the reading of the client list. |
| ActivityPoll.GoneStays | src/activity.rs:388-424 | A client unknown to table, store and poller stays unknown unless its id is inserted again. |
| ActivityPoll.EarlyReturnKeeps | src/activity.rs:388-394 | A pass ends before it reconciles, keeping whatever the store holds, iff the dump fails or is empty or the client query fails. |
| ActivityPoll.DeletedPeerReturns | src/activity.rs:287-294 | A delete between reconciling and recording is undone by the record: why the next pass reconciles. |
| ActivityPoll.PollingIsStoreRun | src/activity.rs:388-424 | However polls, deletions, prunes and purges interleave, the store goes through a run of its own operations. |
| ActivityPoll.PollingConserves | src/activity.rs:180-424 | So after any interleaving from an empty store every live entry keeps its books, and at most 366 days. |
| Rng.U64Below | src/rng.rs:40-53 | The value of the first accepted draw, consuming the rejected ones; a zero bound panics. |
| Rng.BelowIs | src/rng.rs:45-52 | The value is below the bound, comes from the first accepted draw, and all draws before it were rejected. |
| Rng.AcceptedZone | src/rng.rs:42-44 | The rejected zone is 2^64 mod bound, the rest a multiple of the bound, and more than half of all draws are accepted. |
| Rng.Uniform | src/rng.rs:40-51 | Every value below the bound is yielded by equally many of the 2^64 draws. |
| Rng.RangeInclI64 | src/rng.rs:55-60 | Outcome for every 64-bit `lo <= hi`: a value in the range, or a panic on the full range and on offsets of 2^63 and more when overflow is checked. |
| Rng.RangeExclI64 | src/rng.rs:64-68 | The same for half-open ranges. |
| Rng.SumIs | src/rng.rs:59 | The checked sum overflows exactly for offsets of 2^63 and more; the wrapping sum is right for every offset. |
| Rng.PanicIff | src/rng.rs:55-68 | With overflow checks some draw panics iff the range holds more than 2^63 values. |
| Rng.RangeUniform | src/rng.rs:55-68 | Every value of a range is drawn by equally many draws. |
| Firewall.GenRules | src/firewall.rs:717-754 | One rule without a port; with a port one per protocol asked for, both when none is. |
| Firewall.AppendClientRules | src/firewall.rs:572-638 | Appends the rules of the client's kept targets, nothing when an address is malformed. |
| Firewall.RebuildRules | src/firewall.rs:268-277 | All enabled clients' rules in order, then a drop. |
| Firewall.RulesForMean | src/firewall.rs:739-752 | The rules of a target accept exactly the packets of its family, source and destination over the protocol and port it opens; a protocol without a port does not restrict. |
| Firewall.ClientMeans | src/firewall.rs:578-636 | A client's rules accept exactly what the policy allows: nothing with a malformed address; else what the well-formed entries of its firewall list open, if that has text; else those of its allowed list, if that has; else the defaults. Text that is no list opens nothing. |
| Firewall.Precedence | src/firewall.rs:578-584 | Where the firewall list has text, neither the allowed list nor the defaults change what is accepted; where only the allowed list has, the defaults do not. |
| Firewall.ChainIsPolicy | src/firewall.rs:268-277 | Under first-match semantics the chain accepts a packet iff some client's policy allows it, and drops all others. |
| LogFilter.SplitJoined | src/log.rs:123 | Splitting at commas loses nothing. |
| LogFilter.TrimIs | src/log.rs:124 | Trimming takes off exactly the blanks around a text. |
| LogFilter.AssignedPart | src/log.rs:128-141 | A part with `=` directs what stands before the first one, trimmed, to the level named after it, and is ignored without a target or a level. |
| LogFilter.BarePart | src/log.rs:124-153 | A part without `=` is a default level if it names one, else a target at the finest level; a blank one is nothing. |
| LogFilter.ParseLevelIs | src/log.rs:62-72 | A text names a level iff, between blanks, it spells the level's own name in any case. |
| LogFilter.NamedLevel | src/log.rs:62-72 | Each level's name, in any case and with any blanks around it, parses to it. |
| LogFilter.Blanks | src/log.rs:124 | The blanks are the 25 characters with the White_Space property. |
| LogFilter.SortedIs | src/log.rs:156 | Sorting permutes the directives into descending length. |
| LogFilter.CoversIs | src/log.rs:172-180 | A directive covers a target iff the target is its own or continues it after `::`. |
| LogFilter.SegmentBoundary | src/log.rs:172-196 | A directive that ends inside a path segment of a target never changes the answer for it. |
| LogFilter.FirstOfSorted | src/log.rs:189-193 | The first match in the sorted list is the longest covering directive of the text, the earliest among equals. |
| LogFilter.BestIs | src/log.rs:116-156 | What longest and earliest mean, by position in the text. |
| LogFilter.ParseEnvFilter | src/log.rs:118-170 | The filter of a text and the level stored for the pre-check. |
| LogFilter.NoneAbove | src/log.rs:158-164 | No target resolves above the stored level. |
| LogFilter.HighestIs | src/log.rs:158-164 | The level stored is the highest of the default's and the directives'. |
| LogFilter.Logger.Enabled | src/log.rs:184-196 | Pre-check, then the walk over the installed filter, installing the default one on first use. |
| LogFilter.Logger.Init | src/log.rs:245-247 | The first call installs the filter; a later one only stores its pre-check level. |
| LogFilter.EnabledIsDefinition | src/log.rs:184-196 | With filter and pre-check from one text the answer equals the slow definition for every text, level and target. |
| LogFilter.AdmittedLevels | src/log.rs:35-49 | What each resolved level admits, from nothing for `off` to everything for `trace`. |
| LogFilter.FirstUse | src/log.rs:106-111 | Before any filter is installed the pre-check agrees with the default text. |
| LogFilter.SecondInit | src/log.rs:166-247 | After a second initialisation the answers stay those of the installed text iff its default level and its directives, those repeating an earlier target apart, are at most the highest level of the new text. |
| LogFilter.AdmittedWithin | src/log.rs:158-164 | A text admits nothing above a level iff its default and those directives are within it. |
| LogFilter.SecondInitDiffers | src/log.rs:166-247 | Initialised with `debug` and then `info`, the logger drops the debug events its filter admits. |

## Left out

- Huffmans.New: stated for fewer than 65536 symbols, because beyond that the 16-bit counters of the source overflow; its callers pass at most 288.
- BitReaders.BitReader.Peek: stated for reads of at most 32 bits, the width of its result; the decoder reads at most 15.
- Inflates.InflateBlocks: says when decoding fails, not with which message; output already flushed before a failure is only known to extend what was written.
- Gunzips.GunzipToWriter: the writer is an append-only sequence that never fails, and the running byte total is unbounded where the source keeps 64 bits.
- Sinks.Sink.CopyBack: for distances above 32768, which no token has, only says that a success is a correct copy.
- QrCorrection.DamagedRoundTrip: the correcting reader picks the explanation of each block by its definition, not by a decoding algorithm; the program only writes symbols. It reads the five high format modules without correcting them.
- Rng.U64Below: the stream of draws is finite, so running dry is an outcome; the source would block or abort instead.
- Rng.RangeInclI64: stated with overflow checks on; the result with wrapping arithmetic is `Rng.SumIs`.
- Allocation.NextIpv4: networks are already parsed, and `addr() + 1` must be inside the address space, since the source's sum overflows there; the same for `Allocation.NextIpv6`.
- Allocation.Clients.CreateClientAllocIp: the other columns and constraints of the insert are not modelled, nor are addresses set by hand or imported.
- Allocation.ChangeCidr: the computed assignment only; the row-by-row updates pass through states where an old and a new address may collide on the unique column, and an error leaves earlier rows updated.
- Activity.ActivityStore.RecordSamples: the ordered map of days is an ordered list of pairs, and byte counters are unbounded where the source keeps 64 bits.
- ActivityPoll.PollOnce: the dump and the client list, or their failure, are parameters; reading the retention setting and the day rollover around it are left out.
- Firewall.AppendClientRules: targets and addresses are already parsed; the text of rules, comments and the parsing of target strings are not modelled.
- Firewall.RebuildRules: the jumps into the chain, replies, DNS lockdown and the disabled state are not modelled.
- LogFilter.Logger.Enabled: one thread at a time; the atomics and the one-time cell are plain fields.
- Rendering of QR symbols as SVG, and the text forms of addresses and dates.
- The database schema, HTTP handlers, sessions, cryptography, subprocesses and the operating system's random source.
