# Verified models of the engine's codecs, walkers and state machines

Dafny models of the parts of the engine whose correctness is an argument about all inputs, all
runs or all interleavings, with proofs of what the code and its documentation promise.

- **Row codecs** (`c/codec_row*.h`, `c/codec_race.c`): the LSB-first bit writer and reader, the
  frequency quantizer, optimal Huffman lengths, canonical codes (section 3.2.2 of RFC 1951) and the
  wide lookup table, tANS, interleaved rANS, bitplanes with exceptions, and the row index over all
  four. Modules `Arith`, `Bits`, `BitIO`, `Canonical`, `Huffman`, `HuffmanTree`, `HuffmanBuild`,
  `HuffmanCodec`, `Quantize`, `Tans`, `Rans`, `Nibbles`, `Bitplane`, `RowIndex`.
- **The mode-1.5 container** (`c/mode15_reader.c`, `c/mode15_reader.h`, the decode path of
  `c/glm.c`): length tables, structural open, the CRC of section 8 of RFC 1952, verify-once checks,
  and decoding a blob to packed int4. Modules `Crc`, `Mode15`, `Mode15Faults`, `Mode15Reader`,
  `Mode15Decode`.
- **The grammar walker** (`c/grammar.h`): the pushdown automaton over a bounded set of stacks, its
  forced spans, and the desugaring of `? * +`. Modules `Grammar`, `Postfix`.
- **Engine state machines** (`c/glm.c`): speculative decoding, the serve loop's KV reuse, the
  crash-ordered conversation file, and the expert cache with its concurrent pilot. The network is an
  arbitrary causal function. Modules `Speculation`, `ServeSession`, `KvFile`, `ExpertCache`,
  `ExpertRuns`.
- **Tokenizer, hash tables, admission** (`c/tok.h`, `c/st.h`, `c/openai_server.py`). Modules
  `ByteText`, `Tokenizer`, `Pretok`, `Pattern`, `TokenStream`, `TokenCode`, `HashIndex`, `Admission`.

Loops, objects and in-place updates of the source are methods and classes here, each proved against
a specification function; what the source promises is proved about those functions as lemmas. State
machines whose point is interleaving (`ExpertCache`, `Admission`) are step functions over a state,
with an invariant kept by every step and so by every run. `dafny verify dfyconfig.toml` checks the
whole project.

Findings, where the code does not keep a promise on all inputs, each with an input that shows it and
the exact condition under which the promise holds:

- `rans_encode_row` casts substream lengths to `uint16_t` without a check (`c/codec_row_rans.h:97`).
  `Rans.RoundTripExactly`: the row comes back with every lane at the bound and every substream
  consumed if and only if every lane's length fits. A caller can test for at most 43439 symbols a
  lane beforehand (`Rans.LengthsFitShort`), which includes every row of at most 173756 symbols. Rows
  of one rare symbol show how close that is: they decode to themselves if and only if they have at
  most 43690 symbols a lane (`Rans.RareRowsExactly`), so the 174761 of `Rans.LongRowFails` do not.
  The symbols alone may survive wrapped lengths, as those of `Rans.EchoSurvives` do.
- The offsets of the row index are 32-bit sums; they are right if and only if the payload is smaller
  than 4 GB (`RowIndex.IndexExactly`), and wrong for the rows of `RowIndex.LongIndexWraps`.
- `kv_disk_truncate` may be called with a prefix longer than what an earlier, failed append stored;
  a reload then returns records of an older history. `KvFile.FailedAppendThenTruncate` runs into it,
  and by `KvFile.TruncateExact` truncating to `n` is safe for every file and history if and only if
  `n` is at most the stored count.
- `kv_disk_truncate` does not look at whether its write landed. If it did not, a stop during the
  next append can leave a file that mixes two histories (`KvFile.LostTruncate`, a run). Going on
  is safe if and only if the old counter covers no complete record at or past `n`
  (`KvFile.LostTruncateExact`).
- A conversation file turned down for its length keeps its counter, so that the conversation begun
  over it can be read back mixed with the old one (`KvFile.StartedOver`, a run). Going on after a
  restart is safe if and only if the file was read or held nothing to read (`KvFile.RestartExact`).
- A header that a first append failed to write is never written again: what later appends store and
  count is never read back (`KvFile.HeaderLost`). The header is in order if and only if its writes
  landed, which is part of the contract of `KvFile.KvStore.Append`.
- After a reply cut by the token limit, an interactive line (not MORE) drops the last displayed
  token from the history (`ServeSession.LineForgets`). Every fitting turn goes on from what was
  shown if and only if no token is left uncached (`ServeSession.LinesKeepIffUncut`).
- `m15_open_structural` does not return for a header with O = 2^32 - 1 once its row offsets are
  reached, because the row loop counts in 32 bits (`c/mode15_reader.c:216`). `Mode15.BlobIsEndless`
  is such a blob, and `Mode15.RowLoopEnds` shows that the loop ends for every other O. The model
  answers `Endless` there.
- `mode15_decode_i4` passes the number of columns on as an `int` (`c/glm.c:1066-1067`). A blob that
  opens and passes its check is decoded if and only if it has fewer than 2^31 columns, or no rows;
  otherwise the answer is still 1, as for that of `Mode15Decode.WideDecodesNothing`.

## Model

| member | source | states |
|---|---|---|
| BitIO.BitWriter.Put | c/codec_row.h:128-139 | the bits written so far grow by exactly the low `len` bits of the code, lowest first, whole bytes reaching the buffer as far as it has room and nothing outside it |
| BitIO.BitWriter.Finish | c/codec_row.h:141-148 | the buffer holds everything ever put, packed eight bits a byte and zero-padded, and the byte count is that of the whole stream even past the capacity |
| BitIO.BitReader.Peek | c/codec_row.h:159-169 | a peek after a refill is the next `k` unread bits of the payload, zero-padded past its end |
| BitIO.BitReader.Drop | c/codec_row.h:170-170 | dropping `k` bits leaves exactly the unread bits behind them |
| Nibbles.PackNibbles | c/codec_row.h:57-61 | two symbols a byte, even index in the low half, an odd last symbol alone in its byte |
| Nibbles.UnpackPacked | c/codec_row.h:52-61 | unpacking a packed row gives back every symbol's low four bits |
| Quantize.QuantizeFreqs | c/codec_row.h:82-115 | frequencies sum to exactly M (0 for an empty histogram), are positive exactly for the symbols that occur, and differ from the nearest integers only in the direction the sum has to go, evenly: the larger ones first, and no two by steps more than one apart unless one of them is down at 1; the million-trip guard is never reached |
| Quantize.RoundedBounds | c/codec_row.h:88-95 | the rounded frequency of a symbol is within one half of its exact share of M, or 1 where the share is below one half |
| Huffman.BitRev | c/codec_row.h:181-185 | the low bits of the result are those of the argument in reverse order |
| HuffmanBuild.TwoLightest | c/codec_row_huff.h:65-66 | the lightest live node and the lightest of the others, each the earliest of its weight |
| HuffmanBuild.MergeAll | c/codec_row_huff.h:61-72 | repeated merging of the two lightest nodes builds a full binary tree over the leaves in which every merge joined the two lightest live nodes |
| HuffmanTree.LowerBound | c/codec_row_huff.h:64-72 | every assignment of lengths to the leaves with Kraft sum at most 1 costs at least the sum of the merged weights |
| HuffmanTree.DepthCost | c/codec_row_huff.h:73-81 | the tree's own depths cost exactly the sum of the merged weights and have Kraft sum exactly 1 |
| HuffmanBuild.TreeIsOptimal | c/codec_row_huff.h:47-82 | the depths of the finished tree are lengths in 1..15 for exactly the present symbols, satisfy Kraft equality and minimise the sum of count times length over all length assignments |
| HuffmanBuild.BuildLengths | c/codec_row_huff.h:47-82 | for every histogram: positive lengths exactly for present symbols, all at most 15; with two or more present, Kraft equality and minimum total bits among all assignments with Kraft sum at most 1; a lone symbol gets length 1 |
| Huffman.CanonicalOrder | c/codec_row_huff.h:87-94 | the insertion sort lists the present symbols once each, by length and then by symbol |
| Huffman.CanonicalCodes | c/codec_row_huff.h:87-103 | every present symbol gets its canonical code, the one that starts where the shares of all shorter or equal earlier symbols end, with its bits reversed for LSB-first streaming |
| Canonical.PrefixFree | c/codec_row_huff.h:84-103 | two symbols whose canonical codes begin the same window are the same symbol, for every length table with Kraft sum at most 1 |
| Canonical.FirstCode | c/codec_row_huff.h:95-101 | the first symbol in order of length and symbol has code 0 (section 3.2.2 of RFC 1951) |
| Canonical.NextCode | c/codec_row_huff.h:95-101 | of two neighbouring symbols of one length the later has the code one greater |
| Canonical.LongerCode | c/codec_row_huff.h:95-101 | a longer code is at least the next code of every shorter length, extended by zeros |
| Canonical.TilesIffKraft | c/codec_row_huff.h:120-132 | filling a table of windows from canonical codes leaves no hole and no collision if and only if the Kraft sum is exactly 1 |
| Huffman.FillBlock | c/codec_row_huff.h:126-131 | the cells whose low bits are the code get the symbol and its length, all others keep what they had |
| Huffman.BuildLut | c/codec_row_huff.h:108-132 | every cell of the table holds the symbol whose code its index begins with, as scanning the symbols in order would find it |
| Huffman.LookupFinds | c/codec_row_huff.h:154-164 | a window that begins with the code of a present symbol is decoded as that symbol, zero-padded windows included |
| Huffman.RowRoundTrip | c/codec_row_huff.h:143-165 | for every complete table and every row over its symbols, decoding the encoded row gives the row, and the bytes used are the row's bits divided by 8, rounded up |
| Huffman.HuffCodebook.HuffRowBits | c/codec_row_huff.h:137-140 | the size of the row's code without encoding it |
| Huffman.HuffCodebook.EncodeRow | c/codec_row_huff.h:143-150 | writes exactly the coded row and nothing outside the buffer's range, or answers -1 if it does not fit |
| Huffman.HuffCodebook.DecodeRow | c/codec_row_huff.h:154-165 | the output is the row that repeated table lookups read from the payload |
| HuffmanCodec.HistogramRoundTrip | c/codec_row_huff.h:105-165 | every non-empty histogram yields a complete table, and every row over its present symbols survives encoding and decoding |
| HuffmanCodec.Build | c/codec_row_huff.h:105-133 | the codebook of a histogram: optimal lengths, canonical codes and a filled table; complete for every non-empty histogram |
| Tans.SpreadInjective | c/codec_row_fse.h:64-69 | the odd step visits no cell twice within one period of the table |
| Tans.StepIs | c/codec_row_fse.h:64-64 | the step is odd: five eighths of the table and 3 more |
| Tans.Spread | c/codec_row_fse.h:63-69 | every cell of the table is written exactly once, and each symbol gets as many cells as its frequency |
| Tans.FseBuild | c/codec_row_fse.h:56-83 | for every non-empty histogram: frequencies sum to the table size and are the nearest integers of the histogram's shares moved evenly in one direction; for each present symbol and each state exactly one cell's interval contains the state, and the encode table names that cell |
| Tans.BuiltPartitions | c/codec_row_fse.h:72-81 | for each present symbol the intervals of its cells partition all states |
| Tans.RowRoundTrip | c/codec_row_fse.h:89-131 | decoding an encoded row gives the row and ends in the encoder's seed state 0, from the two-byte header on |
| Tans.EncodeRow | c/codec_row_fse.h:89-116 | writes the header state and the step bits of the row, or answers -1 if they do not fit |
| Tans.DecodeRow | c/codec_row_fse.h:119-131 | the output and the final state are those of the table-driven decoder on the payload |
| Rans.RansBuild | c/codec_row_rans.h:47-53 | frequencies sum to 4096 and are the nearest integers of the histogram's shares moved evenly in one direction; symbol ranges begin at the running sums and tile the 4096 slots, the slot table names the range of every slot, and ranges are non-empty exactly for present symbols |
| Rans.PopPush | c/codec_row_rans.h:77-88 | decoding a symbol undoes encoding it: symbol, lane state and pending words come back exactly, the state stays in [2^16, 2^32), and at most one word is emitted, including for frequency 2^12 |
| Rans.LanesLive | c/codec_row_rans.h:77-88 | over a whole row every lane state stays in [2^16, 2^32) and a lane emits at most one word per symbol of its own |
| Rans.RoundTripExactly | c/codec_row_rans.h:58-131 | the bytes of any coded row parse, and decode to the row with every lane back at the bound and every substream consumed, if and only if no lane's substream is longer than its 16-bit length field can say |
| Rans.LengthsFitShort | c/codec_row_rans.h:97-97 | a test before encoding: the lengths fit, and the row comes back, for every book and every row of at most 43439 symbols a lane, 173756 with four lanes |
| Rans.RareRowsExactly | c/codec_row_rans.h:79-131 | for every number of lanes, a row of one symbol that owns only the last slot decodes to itself, symbol by symbol, if and only if it has at most 43690 symbols a lane, which is exactly when its lengths fit |
| Rans.LongRowFails | c/codec_row_rans.h:97-97 | such a book and row with the four lanes of the source: of 174761 copies of one symbol some decode to another |
| Rans.EchoSurvives | c/codec_row_rans.h:97-131 | a row whose lengths have all wrapped to 0 and whose symbols nevertheless all come back, so that fitting lengths are not necessary for the symbols alone |
| Rans.EncodeRow | c/codec_row_rans.h:58-106 | writes states, lengths and word streams of all lanes, or answers -1 if they do not fit |
| Rans.DecodeRow | c/codec_row_rans.h:109-131 | the output and the lanes left over are those of the interleaved decoder on the parsed row |
| Bitplane.BitplaneBuild | c/codec_row_bitplane.h:56-73 | the window chosen costs no more than any other window or raw nibbles |
| Bitplane.CostIsBits | c/codec_row_bitplane.h:57-68 | the modelled cost of a histogram is the number of bits a row with that histogram is coded in: both planes and four bits an exception |
| Bitplane.SymbolRestored | c/codec_row_bitplane.h:136-146 | the rank-addressed gather restores the symbol inside the window and outside it |
| Bitplane.RowRoundTrip | c/codec_row_bitplane.h:76-147 | decoding an encoded row gives the row, for every window and for raw passthrough |
| Bitplane.EncodeRow | c/codec_row_bitplane.h:76-116 | writes header, planes and exceptions, or answers -1 if they do not fit |
| Bitplane.DecodeRow | c/codec_row_bitplane.h:122-147 | the output is the row read from the two planes and the exception area |
| RowIndex.RowOffsets.Push | c/codec_row.h:209-216 | the recorded offsets are kept when the array grows, and one more is appended, reduced modulo 2^32 |
| RowIndex.CodecRoundTrip | c/codec_race.c:134-168 | what any codec writes for a row it covers can be decoded, and gives the row back unless an rANS length field overflowed |
| RowIndex.ShortRowsFit | c/codec_row_rans.h:97-97 | a row of at most 43439 symbols a lane survives any codec that covers it |
| RowIndex.IndexExactly | c/codec_row.h:209-216 | the index says where every row starts if and only if the payload is smaller than 4 GB |
| RowIndex.LongIndexWraps | c/codec_row.h:209-216 | 65536 rows of 131072 raw nibbles, for which the index ends with 0 |
| RowIndex.RandomAccess | c/codec_race.c:134-168 | for every list of rows and every codec, the index gives a row its own slice of the payload if and only if the row ends before 4 GB, and the row decodes from the slice unless an rANS length field overflowed |
| RowIndex.EncodeAll | c/codec_race.c:127-149 | payload and index of all rows, for rows and payloads of any length; fails exactly when the payload does not fit the buffer |
| RowIndex.DecodeAny | c/codec_race.c:165-168 | decodes row `i` alone, wherever it ends before 4 GB, giving the row that was encoded unless an rANS length field overflowed |
| Crc.BuildTable | c/mode15_reader.c:63-68 | entry `i` is the register after eight shifts of `i` |
| Crc.PolyTerms | c/mode15_reader.c:66-66 | the reflected polynomial has exactly the terms of the CRC of section 8 of RFC 1952 |
| Crc.CheckValues | c/mode15_reader.c:75-79 | the CRC of four bytes 0xFF is 0xFFFFFFFF, and that of FF FF FF 7F is 0x12477CDF |
| Crc.Update | c/mode15_reader.c:62-72 | the table-driven update leaves the register that feeding the data bit by bit would leave |
| Crc.Crc32Of | c/mode15_reader.c:75-79 | the CRC of the data as the bit-serial register of section 8 of RFC 1952 defines it |
| Crc.RegisterAtOnce | c/mode15_reader.c:62-72 | up to 32 message bits may enter the register at once before it shifts |
| Crc.BurstDetected | c/mode15_reader.c:62-73 | two messages of one length that differ, and only within 32 consecutive bits, never leave the same register |
| Crc.CrcDetectsBurst | c/mode15_reader.c:75-79 | inputs of one length that differ only within 4 consecutive bytes never share a CRC |
| Mode15.LengthsValid | c/mode15_reader.c:97-117 | accepts exactly the empty table, a lone symbol of length 1, and complete codes with lengths up to 15; reports the widest length and the number of symbols |
| Mode15.ValidationIsExact | c/mode15_reader.c:97-117 | with two or more symbols present, a table is valid if and only if canonical codes fill the lookup table without hole and without collision |
| Mode15.RowLoopEnds | c/mode15_reader.c:216-221 | the row loop with its 32-bit counter comes to an end if and only if O is not 2^32 - 1 |
| Mode15.BlobIsEndless | c/mode15_reader.c:145-221 | a blob with O = 2^32 - 1 that passes every check before the row loop, for every expectation and cap that allows its shape |
| Mode15.OpensSerialized | c/mode15_reader.c:145-266 | the serialization of every well-formed container that meets the caller's expectations and caps opens, and parses back to that container |
| Mode15.OpenedIsSerialized | c/mode15_reader.c:145-266 | every blob that opens is the serialization of the well-formed container it parses to, and meets the expectations and caps |
| Mode15Faults.HeaderFields | c/mode15_reader.c:155-162 | where each field of the 24-byte header stands |
| Mode15Faults.TableFields | c/mode15_reader.c:189-249 | where the length nibbles, row offsets, block CRCs and payload stand |
| Mode15Faults.Truncated | c/mode15_reader.c:145-266 | a container cut anywhere is refused with the status of the part the cut falls in |
| Mode15Faults.Extended | c/mode15_reader.c:236-237 | bytes behind the payload are a length mismatch |
| Mode15Faults.Unexpected | c/mode15_reader.c:164-229 | of a well-formed container: a wrong number of rows, a wrong number of columns, or a limit passed, in that order, is answered with its own status |
| Mode15Faults.WrongMagic | c/mode15_reader.c:155-156 | wrong first two bytes are a bad magic, wrong next two a version mismatch, whatever follows |
| Mode15Faults.WrongBlocks | c/mode15_reader.c:177-185 | rows without a block size, and a block count that is not the number of blocks rounded up, each have their status |
| Mode15Faults.WrongTable | c/mode15_reader.c:189-200 | a length table that does not tile its windows, a lone symbol of more than one bit, or no symbol at all where rows and columns are not empty is a bad length table |
| Mode15Faults.WrongOffsets | c/mode15_reader.c:212-223 | row offsets that do not begin with 0, or fall anywhere, are refused as such |
| Mode15Reader.BlocksTileRows | c/mode15_reader.c:340-352 | blocks are non-empty, adjacent and cover all rows; all but the last have exactly the stated number of rows |
| Mode15Reader.PayloadCovered | c/mode15_reader.c:340-377 | the rows' bytes in order are the payload, and so are the blocks' |
| Mode15Reader.M15Reader.OpenStructural | c/mode15_reader.c:145-266 | the status is the first fault of the blob in the documented order, or Endless where the row loop is reached with O = 2^32 - 1; on success the reader sees the parsed container with nothing verified yet |
| Mode15Reader.TensorCrcCovers | c/mode15_reader.c:305-338 | the rebuilt index bytes followed by the payload are the blob from byte 24 on |
| Mode15Reader.M15Reader.VerifyTensorOnce | c/mode15_reader.c:305-338 | passes exactly when it has passed before or the CRC of rebuilt index and payload matches; only a pass is remembered |
| Mode15Reader.M15Reader.VerifyBlockOnce | c/mode15_reader.c:340-361 | a block is hashed at most once: the first verdict, good or bad, is the answer from then on, and other blocks keep theirs |
| Mode15Reader.M15Reader.GetRowSpan | c/mode15_reader.c:368-377 | the span is exactly the row's bytes of the payload; closed readers and rows out of range are refused |
| Mode15Reader.CorruptionCaught | c/mode15_reader.c:305-338 | of two blobs with one header that open and differ only within 4 consecutive bytes, at most one passes the tensor check |
| Mode15Reader.BlockCorruptionCaught | c/mode15_reader.c:340-361 | of two containers with one index whose payloads differ only within 4 consecutive bytes of a block, at most one passes that block's check |
| Mode15Reader.OpenedHasTable | c/mode15_reader.c:199-200 | a blob that opens and has symbols to decode has a complete length table to decode them with |
| Mode15Reader.OpenFull | c/mode15_reader.c:268-287 | opens, then checks the tensor and every block; reports the first failing block |
| Mode15Decode.DecodeI4 | c/glm.c:1047-1074 | succeeds for exactly the blobs of the expected shape that open and pass the tensor check, and decodes them to the rows of the matrix, two symbols a byte; with 2^31 columns or more it succeeds and leaves the output as it was |
| Mode15Decode.WideDecodesNothing | c/glm.c:1059-1069 | a blob of 2^31 columns that opens and passes the check, so that it is answered as decoded, although every output that holds its matrix begins with 0x11 |
| Mode15Decode.StoredRoundTrip | c/mode15_reader.c:145-338 | every matrix of symbols stored row by row with a complete table and the right checksum opens, passes, and its rows read back, by table lookups, as the rows stored |
| Mode15Decode.Sealable | c/mode15_reader.c:305-338 | every matrix that fits the format has a container with the right tensor checksum |
| Grammar.NormLang | c/grammar.h:283-302 | unless it overflows, normalizing a stack into a set adds exactly the words the stack accepts |
| Grammar.StepLang | c/grammar.h:315-331 | unless it overflows, the set after a byte accepts exactly the words that the byte continues to in the set before |
| Grammar.StepSome | c/grammar.h:315-328 | the set after a byte is empty exactly when no stack could take the byte |
| Grammar.NormOutcome | c/grammar.h:275-302 | normalizing yields exactly the stacks reached by popping exhausted alternates and branching on references, each once, or overflows, and then some expansion is too deep or too high or more than 64 stacks are reached |
| Grammar.OutcomeExact | c/grammar.h:275-302 | so it overflows if and only if one of those limits is passed |
| Grammar.StepOutcome | c/grammar.h:315-331 | a byte overflows the walker, or leads to exactly the stacks reached from its stacks that take the byte |
| Grammar.InitOutcome | c/grammar.h:303-312 | the walker begins with exactly the stacks reached from the root's alternates, or off because of a limit |
| Grammar.GrState.constructor | c/grammar.h:303-313 | the walker begins off if and only if expanding the root's alternates passes one of the limits |
| Grammar.InitAccepts | c/grammar.h:303-312 | the initial set accepts exactly the language of the root rule |
| Grammar.MaskLang | c/grammar.h:334-347 | the parse may end exactly when an empty stack is present, and every accepted word begins with an admissible byte |
| Grammar.ForcedIsPrefix | c/grammar.h:350-363 | completeness: every word the set still accepts begins with the forced span |
| Grammar.ForcedIsMaximal | c/grammar.h:350-363 | a span shorter than asked for ends where the next byte is not unique, the parse may end, or the walker overflows |
| Grammar.GrState.Normalize | c/grammar.h:275-302 | pops exhausted alternates, adds or branches; fails if and only if some expansion of the stack nests more than 64 deep or needs more than 64 frames, or more than 64 different stacks are in the set or reached from this one; otherwise the set is the old one and every stack reached with a terminal or nothing on top, each once |
| Grammar.GrState.Accept | c/grammar.h:315-331 | 1 keeps the set equal to the continuations of what was consumed, 0 leaves everything unchanged and no word of the language continues with the byte; a live walker answers -1 if and only if expanding what the byte makes of its stacks goes more than 64 deep, needs more than 64 frames, or reaches more than 64 different stacks |
| Grammar.GrState.Admissible | c/grammar.h:334-347 | the mask holds the first byte of every continuation, and the end flag says whether what was consumed is a word of the language |
| Grammar.GrState.ForcedSpan | c/grammar.h:350-363 | for every word of the language that continues what was consumed, the output is a prefix of the continuation; the walker itself does not change |
| Postfix.DesugaringPreserves | c/grammar.h:161-185 | every form over the grammar's own rules derives the same words from the desugared grammar as with the postfixed item in place |
| Postfix.OptMeaning | c/grammar.h:161-164 | item? derives the empty word and the words of the item |
| Postfix.RepeatMeaning | c/grammar.h:161-164 | item* derives the concatenations of item words, item+ those of at least one |
| Postfix.EditedAlternate | c/grammar.h:165-185 | in the desugared grammar the edited alternate derives exactly the words of its prefix followed by nothing or a word of the item (?), by words of the item (*), or by at least one (+) |
| Postfix.UnrelatedUnchanged | c/grammar.h:165-185 | rules from which the edited rule cannot be reached keep their language |
| Postfix.RuleTable.Postfix | c/grammar.h:165-185 | the table becomes the desugared grammar; nothing changes for an empty item, and -1 when two more rules do not fit |
| Speculation.GreedyContinues | c/glm.c:3295-3354 | a greedy reply continued greedily follows the single greedy sequence, whether it was cut or stopped by itself |
| Speculation.GreedyStops | c/glm.c:3304-3305 | a greedy reply shorter than allowed ends before a stop token, and holds none |
| Speculation.SampledMore | c/glm.c:3302-3342 | one more round extends a sampled reply, and bans from the next pick exactly the draft it rejected |
| Speculation.StepAll | c/glm.c:3071-3082 | a batch forward writes the rows of the extended history and returns the logits of every position, reading only rows that are not stale |
| Speculation.Verify | c/glm.c:3330-3342 | greedy: the accepted drafts are exactly those greedy decoding would have picked, up to the first mismatch or stop token; sampling: every draft kept was accepted by the sampler, and a draft not kept was rejected by it or is an accepted stop token |
| Speculation.SpecDecode | c/glm.c:3295-3354 | with greedy picking and any draft source whatever, emits exactly the plain greedy sequence cut at the first stop token or the limit; with sampling, the output is round by round the sampler's pick (the draft rejected in the round before excluded) and the drafts the sampler accepted, each round ending only at a rejected draft, a stop token, the end of the draft or of the room, and the whole only at the limit or before a stop token that was picked or accepted; terminates, leaves no stale row behind, and emits one token more than it caches exactly on the truncation exit |
| ServeSession.Slot.Prefill | c/glm.c:4123-4149 | chunked prefill leaves the rows and the logits of one monolithic forward |
| ServeSession.Slot.Prompt | c/glm.c:4078-4158 | reusing the common prefix, the reply is that of decoding the whole prompt from scratch, as long as wanted or as the context leaves room for |
| ServeSession.ReplyLength | c/glm.c:4112-4112 | a reply is allowed all the tokens wanted when they, the margin and two more positions fit behind the history, exactly the room left when they do not, none when there is no room; a reply shorter than both ends before a stop token |
| ServeSession.Slot.Line | c/glm.c:4093-4158 | the turn extends the cached history, or starts over exactly when the whole turn with 8 positions and the margin would not fit behind it, and is answered as from scratch |
| ServeSession.TurnOf | c/glm.c:4093-4108 | which history an interactive turn goes behind: the cached one if the whole turn and 8 positions and the margin fit, else none, the turn then being a first one cut to the context less 8 and the margin |
| ServeSession.KeepsExactly | c/glm.c:4093-4158 | one interactive turn that fits goes on from everything shown if and only if nothing shown is uncached or the turn's first token happens to be the uncached one |
| ServeSession.LinesKeepIffUncut | c/glm.c:4017-4034 | every fitting turn goes on from everything shown if and only if the last reply left no token uncached |
| ServeSession.LineForgets | c/glm.c:4093-4158 | a slot state and a turn after which a token the client has seen is missing from the history |
| ServeSession.Slot.More | c/glm.c:4005-4034 | continues after everything the client has seen, the uncached last token of a cut reply included, for as many tokens as the limit and the context allow |
| ServeSession.Session.Handle | c/glm.c:4001-4158 | any frame keeps every slot's rows true to its own history, changes only the frame's slot (0 for a line, the named one for a prompt, the active one otherwise), and is answered as a decode from scratch would answer it |
| ServeSession.MoresFollowGreedy | c/glm.c:4005-4034 | however often a greedy reply is cut and continued, what the client has seen is the prompt followed by an initial part of the one greedy decoding |
| ServeSession.PromptThenMores | c/glm.c:4005-4158 | a greedy prompt followed by MORE frames shows the prompt's single greedy sequence |
| KvFile.KvStore.Append | c/glm.c:3845-3887 | wherever it is stopped and whichever writes fail, the records are the old ones overwritten from the stored count on up to a stated value, the counter changes only after the last record, every complete record under the counter stays the history's own, and a readable file keeps showing every record stored before; when nothing fails all records and the counter are stored |
| KvFile.KvStore.Restart | c/glm.c:3888-3921 | returns the complete records under the counter of a readable file that fits the context, nothing otherwise; the file then agrees with what was returned if and only if it was not turned down for its length while holding records |
| KvFile.ReloadIsPrefix | c/glm.c:3845-3921 | a reload of a file that agrees with a history returns a prefix of that history |
| KvFile.ReloadIsAll | c/glm.c:3845-3921 | after an append that went through, a reload that fits the context returns the whole history if and only if the header is in order |
| KvFile.StoredSurvives | c/glm.c:3872-3884 | a reload of a readable file, with any room it fits in, begins with everything known to be stored |
| KvFile.Run | c/glm.c:3836-3921 | after any sequence of appends, of truncates to at most what is stored and of restarts, stopped at any single write, a reload returns a prefix of the history that the operations begun so far make, and from a sound file it begins with every record known to be stored |
| KvFile.TruncateExact | c/glm.c:3836-3843 | truncating to `n` is safe for every file and history if and only if `n` is at most the stored count |
| KvFile.FailedAppendThenTruncate | c/glm.c:4081-4087 | a run of the code in which a reload returns records of an older history |
| KvFile.LostTruncateExact | c/glm.c:3836-3843 | for every file, history and `n`, after a truncate whose write is lost every continuation stopped anywhere reloads as a prefix of its history if and only if no complete record stands at or past `n` under the old counter |
| KvFile.LostTruncate | c/glm.c:3842-3842 | a run of the operations in which a lost counter write lets a reload mix two histories |
| KvFile.KeepsExactly | c/glm.c:3845-3921 | taking a file for a history, every continuation stopped anywhere reloads as a prefix of its own history if and only if the file agrees with the history, which is if it is unreadable or shows nothing behind it |
| KvFile.RestartExact | c/glm.c:3900-3904 | going on after a restart with given room is safe if and only if the file was not turned down for its length while holding records |
| KvFile.StartedOver | c/glm.c:3902-3904 | a run in which a file turned down for its length is begun again and then read back, with more room, as a mix of two histories |
| KvFile.HeaderLost | c/glm.c:3857-3860 | whenever a write of the new file's header fails, later appends store and count all records, and no reload ever returns any of them |
| ExpertCache.StepKeeps | c/glm.c:2456-2468 | every step of either thread keeps the invariant: complete visible slots, no expert twice, no read in flight on the owned layer, at most cap published slots |
| ExpertCache.RunKeeps | c/glm.c:2841-2873 | so does every interleaving of the main thread and the pilot |
| ExpertCache.RunMultipliesRightWeights | c/glm.c:2571-2577 | in every run from the start, a multiplication of layer L for expert e reads a slot that holds the weights of (L, e) |
| ExpertRuns.RunConserves | c/glm.c:2569-2757 | in every run, with any interleaving of the pilot, the experts multiplied so far followed by those pending are the experts routed to, in order and once each |
| ExpertRuns.AllMultiplied | c/glm.c:2569-2757 | so whenever the main thread is outside the layers, every expert routed to has been multiplied, in order, once |
| ExpertRuns.VisitEnds | c/glm.c:2569-2775 | from anywhere in a layer the main thread can leave it by its own steps |
| ExpertRuns.NextBlock | c/glm.c:2569-2570 | a block is the next 64 experts, or all that are left |
| ExpertRuns.UsedWhereItIs | c/glm.c:2571-2577 | an expert is used from the pinned slots if it is there, else from the LRU, and is missed only if it is in neither |
| ExpertRuns.TouchedIsNewest | c/glm.c:2576-2576 | an expert found in the LRU becomes the most recently used of its layer |
| ExpertRuns.OldestGoes | c/glm.c:2765-2767 | a new expert takes a slot not yet published, or else the first of those used least recently |
| ExpertRuns.PromotedIsNewest | c/glm.c:2763-2769 | a promoted miss becomes the most recently used of its layer, and the working set keeps what it replaces |
| ExpertRuns.PromotesAll | c/glm.c:2763-2769 | promotion ends when every miss has been promoted, or as many as the cache has slots |
| ExpertRuns.PilotBrings | c/glm.c:2841-2868 | a free pilot asked for an expert of a layer ahead that is not resident makes it resident there, and the most recently used |
| ExpertRuns.ResetOpens | c/glm.c:2998-3003 | after the reset between forwards the pilot may bring experts of every layer again |
| ExpertCache.NothingInFlight | c/glm.c:2456-2468 | while the main thread works on a layer, the pilot holds nothing of that layer |
| ExpertCache.PilotKeepsOut | c/glm.c:2841-2873 | while the main thread works on a layer, no step of the pilot changes that layer or the working set |
| ExpertCache.WaitEnds | c/glm.c:2456-2468 | once the layer is announced the pilot takes nothing more there, and the wait ends when the read in flight is published |
| ExpertCache.PromoteKeeps | c/glm.c:2763-2769 | swapping misses into the LRU keeps ids distinct, weights right and the published count within the cap |
| ByteText.NextPut | c/tok.h:52-65 | reading back the UTF-8 form of any codepoint below 2^21 gives the codepoint and its width, whatever follows |
| ByteText.NextStray | c/tok.h:57-65 | a byte that begins no complete sequence is read as itself, one byte wide |
| ByteText.CpInjective | c/tok.h:68-82 | no two bytes share a codepoint |
| ByteText.CpIs | c/tok.h:68-82 | printable Latin-1 stands for itself, and the other 68 bytes, in order, for 256 to 323 |
| ByteText.BuildBytemap | c/tok.h:68-82 | the three tables: each byte's codepoint, its UTF-8 symbol, and the inverse, -1 everywhere else |
| ByteText.RawStr | c/tok.h:271-274 | decoding the byte-level string of any bytes gives the bytes |
| Tokenizer.BestPairIs | c/tok.h:159-167 | the pair merged next has least rank, and is the leftmost of that rank |
| Tokenizer.BpeIsFinal | c/tok.h:159-171 | merging ends with no mergeable pair left |
| Tokenizer.BpeKeeps | c/tok.h:159-175 | symbols always partition the piece and always have tokens |
| Tokenizer.BpeRuns | c/tok.h:155-173 | the merged symbols are what a run of single merges from the bytes ends in, each of least rank and leftmost |
| Tokenizer.PieceIs | c/tok.h:145-177 | a piece that is a token has that token's id alone; any other has the ids its merge run ends in |
| Tokenizer.PieceRoundTrip | c/tok.h:145-177 | the ids of a piece decode to the piece, and are no more than its bytes |
| Pretok.PiecesPartition | c/tok.h:181-235 | the pieces are non-empty and partition the text, for any letter, number and space classes and any bytes |
| Pattern.CutIsTheMatch | c/tok.h:189-231 | every piece ends where the first match of the cl100k regular expression ends under backtracking semantics: the first alternative that matches, repetitions as long as they can be; for any classes in which newlines are spaces |
| Pattern.PiecesAreMatches | c/tok.h:181-235 | the pieces of any text are the pattern's matches, one after another from the beginning to the end of the text |
| TokenStream.EncodeRoundTrip | c/tok.h:238-277 | decoding the encoding of any text gives the text, and there are at most as many ids as bytes |
| TokenStream.SpecialFirst | c/tok.h:243-253 | a text that begins with an added token, the first such in the list (which is sorted by descending length), is encoded as its id and then the rest |
| TokenStream.PlainFirst | c/tok.h:243-254 | text in which no added token stands, up to one or to the end, is encoded as plain text and then the rest |
| TokenCode.Fuse | c/tok.h:168-170 | two neighbouring symbols become one and the ones behind move up, in both arrays |
| TokenCode.BpePiece | c/tok.h:145-177 | appends the ids of the piece as far as the output has room, the one id of a piece that is a token |
| TokenCode.NextEnd | c/tok.h:189-231 | the scanner stops where the first match of the cl100k pattern ends; the safety branch is dead |
| TokenCode.TokEncode | c/tok.h:238-256 | the output is the first `max` ids of the encoding, in which added tokens are atomic: one at the front gives its id, and text without any gives the ids of plain text; with a usable tokenizer and enough room it decodes to the text |
| TokenCode.TokDecode | c/tok.h:265-277 | the output is the first `max` bytes of the decoded text |
| TokenCode.RoundTrip | c/tok.h:238-277 | encoding and decoding any bytes with a usable tokenizer is the identity |
| HashIndex.HashMap.Get | c/tok.h:35-39 | the lookup terminates and returns the value of the finite map |
| HashIndex.HashMap.Put | c/tok.h:30-34 | the table becomes the finite map with the key set to the value |
| HashIndex.BuildMap | c/tok.h:111-128 | filled from a list, later entries overwriting earlier ones, with room left so that every lookup ends |
| HashIndex.TensorIndex.Find | c/st.h:216-228 | the same entry as the first-match scan of the list, even with duplicate names |
| HashIndex.FirstOnProbe | c/st.h:205-225 | the first cell on a name's probe that holds a tensor of that name holds the first of them |
| HashIndex.NoneOnProbe | c/st.h:205-225 | a probe that ends on a free cell without meeting the name means that no tensor has it |
| Admission.StepKeeps | c/openai_server.py:88-145 | every critical section keeps the protocol's promises: at most one active request, first in first out among those that did not give up, a bounded queue, admitted = completed + active |
| Admission.EveryRunIsSafe | c/openai_server.py:67-145 | they hold after every interleaving of any number of requests |
| Admission.EarlierFirst | c/openai_server.py:99-125 | of two tickets that did not give up, the one queued first is admitted first |
| Admission.WaitsExactly | c/openai_server.py:99-125 | a ticket that wakes is answered closed, admitted, cancelled or timed out exactly when it must be, in that order of precedence, leaves the queue then, and otherwise waits on with nothing changed |
| Admission.LeavesForAReason | c/openai_server.py:99-125 | a ticket leaves the queue unadmitted only in its own section and only when the scheduler is closed, or its client is gone or its time is up while it may not run |
| Admission.TurnedAwayWhenFull | c/openai_server.py:88-98 | refused exactly when closed, turned away exactly when others are ahead and the queue is full, admitted at once when nobody is there |
| Admission.FirstIsAdmitted | c/openai_server.py:99-109 | the first in the queue is admitted when it wakes and nothing runs, even if late or cancelled |
| Admission.QueueDrains | c/openai_server.py:99-145 | while the scheduler is open, all waiting requests can be admitted and finished in the order of the queue |
| Admission.EveryoneAccounted | c/openai_server.py:67-145 | after every interleaving, the requests queued so far are those admitted, those waiting and those that left; while the scheduler is open the last are exactly the ones counted as cancelled or timed out |
| Admission.GenerationScheduler.Admit | c/openai_server.py:88-125 | the first critical section of a request: refused, rejected, or queued and looked at once |
| Admission.GenerationScheduler.Serve | c/openai_server.py:67-145 | any sequence of critical sections on the object keeps the promises |

## Left out
- Quantize.QuantizeFreqs: rounds exact rationals to nearest; the source computes `(double)c / total * M + 0.5` in doubles (`c/codec_row.h:90-91`), whose rounding could differ on ties.
- RowIndex.DecodeAny: what is read through an offset that has wrapped is not modelled; `RowIndex.RandomAccess` says for which rows that happens.
- Mode15Reader.M15Reader.OpenStructural: NULL arguments and allocation failure are not modelled.
- Mode15Decode.DecodeI4: answers false for the blob on which the source does not return.
- KvFile.KvStore.Append: a file that exists but cannot be opened, and writes that land out of order, are not modelled; a record is w values written one at a time.
- KvFile.Run: truncates are cut to what is stored and are not lost, and the run ends where a restart turns the file down; `KvFile.TruncateExact`, `KvFile.LostTruncateExact` and `KvFile.RestartExact` say exactly what happens otherwise.
- Pattern.CutIsTheMatch: `(?i)` folds ASCII letters, as the source does, and not the other Unicode case pairs.
- Speculation.SpecDecode: sampling is an arbitrary choice per draw, given the round and the token banned after a rejection, so nothing is said about its distribution.
- Grammar.GrState.Accept: frames hold unbounded naturals where the source has `int16_t`. Its limit of 1024 rules makes that enough for rule numbers, but not for the positions in an alternate of more than 32767 symbols or the alternates of a rule with more than 32768.
- ExpertCache.Step: each critical section and each slab load is one step; the PIPE worker pool, the REPIN pass between turns, pin changes and CPU memory ordering are not modelled. A cache of zero slots is excluded: the pilot would write outside it.
- Tokenizer.PieceRoundTrip: assumes a usable tokenizer file (a token for every byte symbol and merge result, ids that lead back to their strings); loading and parsing the file is not modelled.
- TokenCode.BpePiece: lookups are finite maps; that the hash tables behind them are such maps is HashIndex's result. Scratch buffers other than the offset and length arrays are sequences.
- Admission.EveryRunIsSafe: whether a waiter's deadline has passed or its client is gone is an input of each step; clocks and wake-up latency are not modelled.
- Bit operations on machine words are modelled on naturals by bit lists, shifts, masks and a recursive or; branchless selects are conditionals.
- The text parser of grammars, names of rules, and the JSON and safetensors headers: parsed input is assumed.
- Floating-point kernels, attention, rotary embeddings, softmax, nucleus sampling, MTP heads and n-gram drafts: the network and every draft source are arbitrary functions.
- Metal and CUDA backends, mmap, O_DIRECT, readahead hints, memory locking, signals, and allocation failure.
- HTTP, server-sent events, chat templates, the prompt-affinity router, benchmarks, gates and document generators.
