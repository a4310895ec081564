# Huffman entropy coding of JPEG images, and three sliding windows

A model, with proofs, of the JPEG entropy coder in `TMessagesProj/jni/libjpeg` (sequential and progressive Huffman modes of
ITU-T T.81), of the scan control around it, and of three stand-alone components: the context-row controllers of the decompressor
(`jdmainct.c`) and of the compressor (`jcprepct.c`), and the packed blur of `TMessagesProj/jni/image.c`.

`dafny verify dfyconfig.toml` checks everything.

## How it is built

- **Bits and bytes.** `Bits`, `Segments`, `BitOutput`, `BitInput`: bit strings, byte stuffing, the accumulator of the encoder and the
  prefetching reader of the decoder. A reader's state is judged against the whole file that the source will ever deliver, of which only
  a part has arrived; so a contract says at once what a call returns and that suspension leaves no trace. `BitRoundTrip` joins both sides.
- **Tables.** `HuffTables`, `HuffDecoding`: canonical codes and the derived tables of both sides. `HuffmanCost`, `HuffmanForest`,
  `HuffmanGen`, `LengthLimit`, `OptimalTable`, `Statistics`: `jpeg_gen_optimal_table`, its optimality and the limiting of lengths.
- **Sequential mode.** `Tokens` is the common language: a scan is a list of Huffman symbols and raw bits. `SeqEncoder`,
  `SeqScanEncoder`, `SeqGather` are proved to emit or count the tokens of the blocks; `BandDecoder`, `SeqDecoder`, `SeqScanDecoder`,
  `Restarts`, `McuDecoder` to decode what the bits mean; `SeqRoundTrip`, `TwoPass`, `SequentialTheorem` join them.
- **Progressive mode.** `AcRefine`, `EobRuns`, `RefineGroups`, `ProgScan` define the tokens of the four kinds of scans, with EOB runs
  and deferred correction bits; `TokenOutput`, `ProgEncoder`, `ProgTokens`, `ProgPasses` are the encoder; `ProgMeaning`, `ProgRoundTrip`,
  `RefineTrack`, `RefineDecoder`, `ProgDecoder` the decoder with its roll-back; `Streams`, `ProgSpots`, `ProgTheorem`, `ProgCompress` join
  them.
- **Rules.** `CodingRules`, `SymbolGrammar`, `ScriptLaws`: what the codes, symbols, bits and scripts are in terms of coefficients and
  scans alone, so that the two coders cannot agree on something else; likewise `Coefficients.ZigzagOrder`, `Geometry.GridMeans` and
  `HuffmanDepth`, which shows that ties in the merge loop leave the longest code to the pseudo-symbol.
- **Any stream.** `AnyStream` and `AnyProgStream`: what the decoders do is independent of how the input is divided, on well formed and
  other streams.
- **Scripts and layout.** `Scripts`, `Progressions`, `Transmission`; `Geometry`, `McuWalk`, `ScanLayout`, `ImageTransmission`: script
  validation on both sides, exactness of progressive transmission, MCU geometry and the walk of the coefficient controllers.
- **Index.** `HuffIndex`, `ScanIndex`: running over MCUs, saving positions, building the index of a scan and seeking in it. `Locality`
  says what decoding an MCU depends on; `IndexLimits` holds the inputs on which an index entry fails.
- **Context rows.** `FunnyPointers`, `ContextMain`, `RowGroups` for the decompressor; `ContextPrep` for the compressor.
- **Blur.** `TriangleFilter`, `PackedLanes`, `FastBlur`.

Classes stand for the objects that the program updates in place (bit writer and reader, encoders, decoders, controllers); coefficient
blocks, counts, tables under construction, pixels and pointer lists are arrays. `ERREXIT` is an error value. Errors that a caller can see
are part of the contracts, with their exact causes where the code has them.

Findings about the code are part of the results.

- `get_huffman_decoder_configuration` has room for the DC predictions of three components only; `HuffIndex.Save` reports the overrun
  exactly for a fourth.
- An index entry made before the reader has met the marker at the end of the segment, whatever the DC predictions, or for an MCU that ends
  within its segment, leads to the blocks that decoding in order delivers (`ScanIndex.SeekAndDecode`, `ScanIndex.SeekInIndex`). An entry
  made behind the marker fails in three ways: for an MCU that reaches beyond its segment the restored decoder takes the bits behind the
  marker instead of zeros and delivers another block (`IndexLimits.MisleadsBeyondTheData`); with fewer than 8 bits left and less than 25
  bits and no marker behind the marker it waits for input for ever (`ScanIndex.Stranded`, `IndexLimits.StrandsAtTheEnd`); and with
  restart intervals it looks for the marker that it has passed, and takes the next one for a wrong one (`ScanIndex.MarkerMissed`,
  `IndexLimits.MissesTheMarker`).
- An interrupted MCU of an AC refinement scan keeps the corrections it has made; `RefineTrack.LeadsEnd` is the reason why that is
  harmless.

## Model

| member | source | states |
|---|---|---|
| Segments.StuffedEscapesFF | TMessagesProj/jni/libjpeg/jchuff.c:302-337 | in the stuffed form of any data every FF byte is followed by 00, so no marker can appear inside a segment |
| Segments.ScanStuffed | TMessagesProj/jni/libjpeg/jdhuff.c:292-390 | scanning stuffed data followed by FF and a marker code gives back exactly the data, the marker and the position behind it (section B.1.1.5 of ITU-T T.81) |
| Segments.ScanJoin | TMessagesProj/jni/libjpeg/jchuff.c:450-475 | in a stream of segments closed by markers, scanning from where segment k begins finds its bytes, its marker and where the next one begins, whatever follows the stream |
| Segments.FillBytes | TMessagesProj/jni/libjpeg/jdhuff.c:320-352 | any number of FF bytes may stand before a marker code; before a 00 they are one data byte FF |
| BitOutput.BitWriter.EmitByte | TMessagesProj/jni/libjpeg/jchuff.c:278-337 | a data byte is appended to the segment and its stuffed form to the output |
| BitOutput.BitWriter.EmitBits | TMessagesProj/jni/libjpeg/jchuff.c:301-337 | for any size up to 16 the low `size` bits of the code follow the bits written before; at most 7 bits stay buffered; a size of 0 is refused |
| BitOutput.BitWriter.FlushBits | TMessagesProj/jni/libjpeg/jchuff.c:339-347 | the segment's bytes are the bits written, completed with at most 7 one-bits, and nothing stays buffered |
| BitOutput.BitWriter.EmitMarker | TMessagesProj/jni/libjpeg/jchuff.c:450-475 | the segment is closed with FF and the marker, and a new one begins |
| BitOutput.TakeByte | TMessagesProj/jni/libjpeg/jchuff.c:322-331 | the byte that leaves the accumulator is the next 8 bits of the bit string, and what remains is what follows them, in 32-bit arithmetic |
| BitInput.BitSource.FillBitBuffer | TMessagesProj/jni/libjpeg/jdhuff.c:292-390 | the buffer goes on holding the bits of the segment that follow bit n, then zeros beyond its end; 25 bits are there unless a marker was met; zeros are made up only if the request reaches beyond the end; it suspends only while the segment with its marker has not been delivered, and then leaves no trace |
| BitInput.BitSource.GetBits | TMessagesProj/jni/libjpeg/jdhuff.h:139-153 | the value is the next k bits of the segment and the position moves by k; bits_left is at most 31 after a non-empty read |
| BitInput.PeekBeyond | TMessagesProj/jni/libjpeg/jdhuff.c:355-384 | reading at or beyond the end of the segment gives zeros |
| BitRoundTrip.ReadFields | TMessagesProj/jni/libjpeg/jdhuff.h:139-153 | fields are read one after the other with the values that were written, as many as the delivered input allows and all if the segment with its marker is there |
| BitRoundTrip.FieldsComeBack | TMessagesProj/jni/libjpeg/jchuff.c:301-347 | whatever fields of 1 to 16 bits are written, with flushes and markers between them, the reader finds the segments one after the other, reads in each field the low bits of its code, and leaves at most seven one-bits |
| HuffTables.CodeLengths | TMessagesProj/jni/libjpeg/jchuff.c:208-221 | symbol q gets the length under which the bits[] counts list it; refused exactly if there are more than 256 symbols |
| HuffTables.AssignCodes | TMessagesProj/jni/libjpeg/jchuff.c:223-244 | symbol q gets its canonical code (Annex C of ITU-T T.81); refused exactly if some code does not fit its length |
| HuffTables.IndexBySymbol | TMessagesProj/jni/libjpeg/jchuff.c:246-263 | the derived table is indexed by symbol; refused exactly if a symbol is out of range or occurs twice |
| HuffTables.MakeEncTable | TMessagesProj/jni/libjpeg/jchuff.c:178-263 | accepts a table exactly if its counts are legal and its symbols are distinct and in range, and then holds each symbol's canonical code and length, 0 for symbols without a code |
| CodingRules.CanonicalCodes | TMessagesProj/jni/libjpeg/jchuff.c:223-244 | the first code is all zeros, and every other one is the code before it plus 1, with as many zero bits appended as it is longer (figure C.2 of ITU-T T.81) |
| CodingRules.LegalRule | TMessagesProj/jni/libjpeg/jchuff.c:228-241 | the check of the assigned codes accepts exactly the tables of at most 256 codes in which every code leaves the all-ones code of its length free |
| HuffDecoding.MakeDecTable | TMessagesProj/jni/libjpeg/jdhuff.c:149-267 | accepts a table exactly if its counts are legal and, for DC, its symbols are at most 15; the maxcode, valoffset and 8-bit lookahead arrays then answer as the canonical code does |
| HuffDecoding.DecodesCode | TMessagesProj/jni/libjpeg/jdhuff.c:398-434 | if a canonical code is a prefix of the stream, decoding finds it: its length and its index |
| HuffDecoding.DecodedIsCode | TMessagesProj/jni/libjpeg/jdhuff.c:398-434 | what decoding finds is a canonical code that is a prefix of the stream |
| HuffDecoding.UndecodedIsNoCode | TMessagesProj/jni/libjpeg/jdhuff.c:423-434 | decoding reports 17 bits only if no code is a prefix of the stream |
| HuffDecoding.NoCodeIsZero | TMessagesProj/jni/libjpeg/jdhuff.c:423-434 | where no code stands symbol 0 is taken |
| HuffDecoding.LookupIsDecode | TMessagesProj/jni/libjpeg/jdhuff.c:229-252 | on every stream the entry of the next 8 bits is the decoded symbol and its length, or 0 exactly if the code is longer than 8 bits |
| HuffDecoding.SlowDecode | TMessagesProj/jni/libjpeg/jdhuff.c:398-434 | bit-serial decoding from `minBits` bits on returns the symbol whose code is the prefix of the stream and consumes exactly its length |
| HuffDecoding.HuffDecode | TMessagesProj/jni/libjpeg/jdhuff.h:177-197 | the fast procedure (refill, 8-bit lookahead, else bit-serial from 9 bits, or from 1 bit near the end) returns the symbol that canonical decoding defines and consumes exactly its length |
| HuffmanGen.LeastFrequency | TMessagesProj/jni/libjpeg/jchuff.c:733-757 | the least nonzero frequency, the largest symbol among equals, other than the one skipped |
| HuffmanGen.MergeTrees | TMessagesProj/jni/libjpeg/jchuff.c:759-776 | the frequencies are merged, every symbol of both trees gets one bit longer, and the chains are joined |
| HuffmanGen.MergeAll | TMessagesProj/jni/libjpeg/jchuff.c:730-776 | the merge loop ends with one tree whose code sizes are optimal and whose depth the frequencies have paid for, and pseudo-symbol 256 has the longest code |
| HuffmanGen.PseudoIsLongest | TMessagesProj/jni/libjpeg/jchuff.c:733-776 | as ties are broken for the larger index, no code gets longer than that of pseudo-symbol 256 |
| OptimalTable.OptimalIsFeasible | TMessagesProj/jni/libjpeg/jchuff.c:717-776 | the code sizes of the merge loop meet Kraft's inequality with equality |
| OptimalTable.OptimalIsLeast | TMessagesProj/jni/libjpeg/jchuff.c:717-776 | no Kraft-feasible assignment of lengths to the used symbols and pseudo-symbol 256 has a smaller sum of frequency times length than the code sizes of the merge loop |
| OptimalTable.LongCodeNeeds | TMessagesProj/jni/libjpeg/jchuff.c:730-776 | a code of d bits needs a total frequency of at least the Fibonacci number F(d+2) |
| OptimalTable.NoOverflowBelow | TMessagesProj/jni/libjpeg/jchuff.c:778-788 | with a total frequency below F(35) = 9227465 no code size exceeds 32, so JERR_HUFF_CLEN_OVERFLOW is unreachable |
| LengthLimit.CountLengths | TMessagesProj/jni/libjpeg/jchuff.c:778-788 | overflow is reported exactly if a code size exceeds 32; otherwise bits[l] is the number of symbols whose code size is l, and the Kraft sum is 1 |
| LengthLimit.LimitLengths | TMessagesProj/jni/libjpeg/jchuff.c:790-814 | bits[] becomes what the steps of figure K.3 of ITU-T T.81 make of it: afterwards no length exceeds 16, the number of symbols is the same and the Kraft sum is still 1; the search for a shorter code stops at j >= 1 |
| LengthLimit.LimitedKeeps | TMessagesProj/jni/libjpeg/jchuff.c:801-814 | a histogram without lengths above 16 is left as it is |
| LengthLimit.LimitRule | TMessagesProj/jni/libjpeg/jchuff.c:801-813 | one step takes two codes of the greatest length and one of the greatest length that is at least two bits shorter, and gives one a bit shorter than the former and two a bit longer than the latter |
| LengthLimit.EvenAtTop | TMessagesProj/jni/libjpeg/jchuff.c:801-813 | the count at the greatest length is even, so it can be reduced in pairs |
| LengthLimit.ShorterExists | TMessagesProj/jni/libjpeg/jchuff.c:803-805 | below a length above 16 that is in use there is a shorter code in use |
| LengthLimit.RemoveReserved | TMessagesProj/jni/libjpeg/jchuff.c:816-819 | one code of the longest length is taken away, and nothing else; the counts are then legal, one symbol fewer, with Kraft sum 1 - 2^-L for the longest length L: no code consists of ones only |
| OptimalTable.ListSymbols | TMessagesProj/jni/libjpeg/jchuff.c:821-835 | huffval lists the coded symbols sorted by code length and then by value |
| OptimalTable.GenOptimalTable | TMessagesProj/jni/libjpeg/jchuff.c:704-838 | for 1 to 254 used symbols and a total frequency of at most 10^9: fails exactly if an optimal code size exceeds 32, and otherwise yields a table whose bits[] follow from the optimal code sizes and that lists exactly the used symbols, shortest code first, is legal, leaves out the all-ones code and is accepted by jpeg_make_c_derived_tbl |
| OptimalTable.TableKeepsLengths | TMessagesProj/jni/libjpeg/jchuff.c:778-835 | if no code size exceeds 16, bits[l] is the number of symbols whose code size is l, and every listed symbol gets a code of its optimal size |
| OptimalTable.TableUses16 | TMessagesProj/jni/libjpeg/jchuff.c:801-819 | if some code size exceeds 16, codes of 16 bits are used |
| Statistics.OverflowNeeds | TMessagesProj/jni/libjpeg/jchuff.c:778-788 | an overflow for the statistics of a scan takes at least 9227464 counted symbols |
| Statistics.GenTable | TMessagesProj/jni/libjpeg/jchuff.c:845-880 | counts that tally a list of tokens yield a table that codes every symbol of the list |
| Coefficients.ZigzagInjective | TMessagesProj/jni/libjpeg/jutils.c:53-64 | blocks with the same coefficients in zigzag order are the same |
| Coefficients.ZigzagOrder | TMessagesProj/jni/libjpeg/jutils.c:53-64 | the order goes diagonal by diagonal, down on odd diagonals and up on even ones (figure 5 of ITU-T T.81) |
| Coefficients.ZigzagCounts | TMessagesProj/jni/libjpeg/jutils.c:53-64 | entry k is the position with exactly k positions before it in that order |
| Coefficients.BitLength | TMessagesProj/jni/libjpeg/jchuff.c:382-386 | the number of bits of a magnitude |
| Coefficients.ExtendInverse | TMessagesProj/jni/libjpeg/jdhuff.c:436-458 | extending the low bits that the encoder writes for a value gives back the value, for every nonzero value |
| Coefficients.ValueBitsAre | TMessagesProj/jni/libjpeg/jchuff.c:363-405 | a value takes as many bits as its magnitude, positive values as they are and negative ones complemented, so that the first bit is 1 exactly for positive values |
| Coefficients.PointTransforms | TMessagesProj/jni/libjpeg/jcphuff.c:376-420 | the point transform leaves the next multiple of 2^Al in the direction of zero, for DC the next one below |
| RunLength.RunsRead | TMessagesProj/jni/libjpeg/jchuff.c:388-443 | run/size tokens are read back as the values they stand for, at their places, with ZRL for 16 zeros and EOB at the end (section F.1.2.2 of ITU-T T.81) |
| RunLength.ApplyValues | TMessagesProj/jni/libjpeg/jdhuff.c:660-700 | writing the values read leaves every nonzero coefficient of the band at its place and the others as they were |
| SeqEncoder.EncodeOneBlock | TMessagesProj/jni/libjpeg/jchuff.c:352-443 | succeeds exactly if the coefficients are in range and every symbol has a code, and then appends the codes of the block's tokens; each of the two errors has its cause |
| SeqEncoder.HtestOneBlock | TMessagesProj/jni/libjpeg/jchuff.c:571-638 | counts exactly the symbols that encode_one_block emits, table by table, and fails exactly for coefficients out of range |
| CodingRules.DcRule | TMessagesProj/jni/libjpeg/jchuff.c:361-407 | a DC difference is its size in bits and its bits |
| CodingRules.AcRule | TMessagesProj/jni/libjpeg/jchuff.c:411-437 | a nonzero AC coefficient after r zeros is r / 16 symbols F0, the symbol 16 * (r % 16) + size, and its bits |
| CodingRules.EndRule | TMessagesProj/jni/libjpeg/jchuff.c:439-442 | a 00 follows the last nonzero coefficient unless that is coefficient 63 |
| CodingRules.RangeRule | TMessagesProj/jni/libjpeg/jchuff.c:378-423 | in range are DC differences below 2^11 and AC coefficients below 2^10 |
| CodingRules.PredictionRule | TMessagesProj/jni/libjpeg/jchuff.c:498-510 | a DC coefficient is predicted from the last block of its own component |
| CodingRules.BlockRule | TMessagesProj/jni/libjpeg/jchuff.c:498-510 | DC before AC, each with the table that its component names |
| SeqScanEncoder.ScanEncoder.EmitRestart | TMessagesProj/jni/libjpeg/jchuff.c:450-475 | closes the restart interval as a segment that holds its tokens, with marker RSTn, and resets the predictions |
| CodingRules.RestartRule | TMessagesProj/jni/libjpeg/jchuff.c:450-475 | restart markers count from D0 to D7 and begin again |
| SeqScanEncoder.ScanEncoder.EncodeMcu | TMessagesProj/jni/libjpeg/jchuff.c:476-527 | codes one MCU, with a restart marker before it exactly if the interval is full; the stream holds the segments of the finished intervals and the tokens of the current one |
| SeqScanEncoder.ScanEncoder.FinishPass | TMessagesProj/jni/libjpeg/jchuff.c:533-552 | the last interval is completed to a whole segment |
| SeqGather.GatherEncoder.GatherMcu | TMessagesProj/jni/libjpeg/jchuff.c:645-673 | counts the tokens of one MCU, with the restart behaviour of the output pass |
| SeqGather.GatherEncoder.FinishPassGather | TMessagesProj/jni/libjpeg/jchuff.c:845-880 | every table the scan selects is generated once and codes all symbols counted; the only error is a code length overflow |
| BandDecoder.DecodeBandInto | TMessagesProj/jni/libjpeg/jdhuff.c:660-700 | the coefficient loop writes what the bits of the segment mean, at most at 63, and an interrupted attempt leaves a block from which the next one arrives at the same result |
| BandDecoder.AttemptHarmless | TMessagesProj/jni/libjpeg/jdhuff.c:640-700 | writes of an interrupted attempt are written again by the complete one |
| SeqDecoder.DecodeBlock | TMessagesProj/jni/libjpeg/jdhuff.c:631-700 | one block becomes what the stream means, or, suspended, decodes to the same later |
| Restarts.NextMarker | TMessagesProj/jni/libjpeg/jdmarker.c:881-925 | finds the next marker that is not fill and the position behind it |
| Restarts.ReadRestartMarker | TMessagesProj/jni/libjpeg/jdmarker.c:1130-1156 | the expected marker is swallowed and the next segment begins; any other one is left for resynchronisation; suspended, the same marker is still ahead |
| McuDecoder.ScanDecoder.ProcessRestart | TMessagesProj/jni/libjpeg/jdhuff.c:468-499 | the restart is read exactly if the marker is the one due, and then the decoder stands at bit 0 of the next segment with predictions reset |
| McuDecoder.ScanDecoder.DecodeMcu | TMessagesProj/jni/libjpeg/jdhuff.c:602-712 | the MCU becomes what the stream means from the decoder's position on; suspended, position, predictions and outcome are unchanged; after a segment has run dry the blocks are left alone |
| SeqRoundTrip.McuRoundTrip | TMessagesProj/jni/libjpeg/jdhuff.c:602-712 | from the bits of its tokens an MCU is decoded to its own coefficients, and position and predictions move on as in the encoder |
| AnyStream.Attempt | TMessagesProj/jni/libjpeg/jdhuff.c:602-712 | on any stream one call either decodes, or changes nothing that the next one depends on; a wrong restart marker is reported exactly if the marker is wrong |
| AnyStream.DecodeRun | TMessagesProj/jni/libjpeg/jdhuff.c:602-712 | on any stream the blocks of a run, the place where a restart marker is wrong and where the decoder stands afterwards are functions of the stream alone |
| AnyStream.EitherWay | TMessagesProj/jni/libjpeg/jdhuff.c:292-712 | two runs over any stream that are given their bytes in any two ways end alike: the same blocks, the same standing; a run starves only for want of bytes or of a marker at the end of its segment |
| AnyStream.RunsDry | TMessagesProj/jni/libjpeg/jdhuff.c:620-712 | once a segment has run dry its MCUs are left alone, it runs dry exactly with the first MCU that reaches beyond its end, and the next segment starts afresh |
| TwoPass.Gather | TMessagesProj/jni/libjpeg/jchuff.c:645-673 | the statistics pass over a whole scan tallies the tokens of the output pass |
| TwoPass.Encode | TMessagesProj/jni/libjpeg/jchuff.c:476-552 | the output pass over a whole scan yields one segment for each restart interval |
| TwoPass.TokensCoded | TMessagesProj/jni/libjpeg/jchuff.c:302-315 | with the tables made from the statistics every token has a code, so JERR_HUFF_MISSING_CODE cannot occur |
| SequentialTheorem.CompressScan | TMessagesProj/jni/libjpeg/jchuff.c:571-880 | gathers, makes the tables and encodes; refused exactly if a coefficient is out of range, or for an overflow of a selected table; otherwise the stream is one from which the MCUs can be restored |
| SequentialTheorem.RestoreScan | TMessagesProj/jni/libjpeg/jdhuff.c:602-712 | from tables and bytes alone, arriving in pieces of any size, the MCUs that the stream was made of come back, unless the pieces end before the file does |
| SequentialTheorem.TwoPassRoundTrip | TMessagesProj/jni/libjpeg/jchuff.c:571-880 | gather, build optimal tables, encode, decode: the MCUs come back for every restart interval and every division of the input once all bytes of the stream, which may be followed by anything, have been delivered |
| HuffIndex.DiscardMcu | TMessagesProj/jni/libjpeg/jdhuff.c:721-793 | decode_mcu_discard_coef moves position, predictions and restart state exactly as decode_mcu does, and raises the shortage flag only where the MCU reaches beyond its segment |
| HuffIndex.PackingLossless | TMessagesProj/jni/libjpeg/jdhuff.c:523-545 | 5 bits for bits_left and 27 for the byte position are enough exactly if the position is below 2^27 |
| HuffIndex.Save | TMessagesProj/jni/libjpeg/jdhuff.c:505-549 | the restart that is due is processed first, and position and buffer are not saved if that fails; else the offset holds position, bit buffer, predictions as shorts and restart state, and the decoder still stands before the same MCU; with a fourth component, and only then, prev_dc[3] is overrun |
| HuffIndex.SaveContinues | TMessagesProj/jni/libjpeg/jdhuff.c:505-549 | below position 2^27 the saved buffer and position hold the bits that follow the MCU's first bit: to the end of the segment if its marker has not been met, else to the end of the segment behind it |
| HuffIndex.Restore | TMessagesProj/jni/libjpeg/jdhuff.c:550-585 | a decoder configured with an offset from which bits can be continued stands at the saved bit with the saved predictions and restart state, and keeps the predictions of components outside the scan |
| Locality.McuSame | TMessagesProj/jni/libjpeg/jdhuff.c:596-720 | an MCU that ends within its data ends, predicts and fills its blocks alike whatever bits follow the data |
| Locality.McuCongruent | TMessagesProj/jni/libjpeg/jdhuff.c:643-651 | predictions that agree modulo 2^16 lead to the same blocks, coefficients being shorts, and still agree afterwards |
| ScanIndex.ResumedShadows | TMessagesProj/jni/libjpeg/jdhuff.c:550-585 | a restored decoder shadows one that has decoded in order: same bit, predictions alike modulo 2^16, and possibly bits from behind the marker |
| ScanIndex.ShadowStep | TMessagesProj/jni/libjpeg/jdhuff.c:596-720 | over an MCU that ends within its segment, or if both know the same bits, shadow and original deliver the same blocks and the one goes on shadowing the other |
| ScanIndex.MarkerMissed | TMessagesProj/jni/libjpeg/jdhuff.c:469-499 | restored from behind the marker, the decoder is out of step at the end of the restart interval unless the next marker bears the number that was due |
| ScanIndex.Mark | TMessagesProj/jni/libjpeg/jdcoefct.c:416-421 | an index entry continues at the first bit of the MCU that the decoder stands before, whether or not the marker has been met; 32 bits or more before the end of the data it has not |
| ScanIndex.IndexRow | TMessagesProj/jni/libjpeg/jdcoefct.c:413-432 | an MCU row gets one entry for every sample_size-th column, each for the MCU in that column; what keeps it from being complete is the end of the input, a wrong restart marker or a fourth component |
| ScanIndex.IndexImcuRow | TMessagesProj/jni/libjpeg/jdcoefct.c:390-443 | the rows of an iMCU row lie one after the other, entry y * ceil(width / size) + j standing for column j * size of row y |
| ScanIndex.BuildIndex | TMessagesProj/jni/libjpeg/jdtrans.c:156-205 | the index of a whole scan, restart intervals included, with as many MCU rows in each iMCU row as start_iMCU_row says; complete unless the input runs out, a restart marker is wrong or a fourth component overruns prev_dc |
| ScanIndex.SeekAndDecode | TMessagesProj/jni/libjpeg/jdhuff.c:550-585 | a decoder configured with an entry, wherever it was before, delivers the very blocks that decoding in order delivers and shadows it from then on, if the marker had not been met when the entry was made or the MCU ends within its segment; a stranded decoder suspends |
| ScanIndex.DecodeOn | TMessagesProj/jni/libjpeg/jdhuff.c:596-720 | the MCUs that follow go on being those of decoding in order, through restart markers too if the marker had not been met, else as long as they end within the segment |
| ScanIndex.SeekInIndex | TMessagesProj/jni/libjpeg/jdtrans.c:156-205 | entry j of row y of iMCU row i of the index of a scan leads to the blocks of the MCU in column j * sample_size of that row |
| IndexLimits.MisleadsBeyondTheData | TMessagesProj/jni/libjpeg/jdhuff.c:550-585 | a file and an entry made behind the marker, for an MCU beyond its data, with which another block is delivered than in order |
| IndexLimits.StrandsAtTheEnd | TMessagesProj/jni/libjpeg/jdhuff.c:550-585 | a file that ends with the marker and an entry for an MCU within its data with which the decoder waits for input for ever |
| IndexLimits.MissesTheMarker | TMessagesProj/jni/libjpeg/jdhuff.c:550-585 | a file of two restart intervals and an entry made behind the first marker with which the next MCU is decoded but the marker due after it is found to be wrong |
| AcRefine.CorrectsTo | TMessagesProj/jni/libjpeg/jdphuff.c:565-578 | a correction bit takes a coefficient from precision Al+1 to Al |
| AcRefine.RefineReads | TMessagesProj/jni/libjpeg/jcphuff.c:617-738 | ZRLs, newly nonzero coefficients and the correction bits behind them are read in the order written (section G.1.2.3 of ITU-T T.81) |
| SymbolGrammar.RefinementSymbols | TMessagesProj/jni/libjpeg/jcphuff.c:652-706 | the symbols of a refinement scan are F0, or r * 16 + 1 followed by one bit, or n * 16 with n at most 14 followed by n bits |
| SymbolGrammar.IntervalGrammatical | TMessagesProj/jni/libjpeg/jcphuff.c:463-562 | the symbols of any AC scan are F0, or r * 16 + s followed by s bits, or n * 16 with n at most 14 followed by n bits |
| SymbolGrammar.RefinementReadsUnits | TMessagesProj/jni/libjpeg/jdphuff.c:539-543 | with the table made for a refinement scan no size but 0 and 1 is read, wherever in whatever data |
| CodingRules.NewRule | TMessagesProj/jni/libjpeg/jcphuff.c:655-704 | a coefficient that becomes nonzero after r coefficients that are still zero is r / 16 symbols F0, the symbol 16 * (r % 16) + 1, and a bit that is 1 if it is positive |
| CodingRules.CorrectionRule | TMessagesProj/jni/libjpeg/jcphuff.c:685-694 | the correction bits are bit Al of the magnitudes sent before, in order |
| EobRuns.AbsorbAllValid | TMessagesProj/jni/libjpeg/jcphuff.c:713-722 | over any sequence of blocks EOBRUN is at most 0x7FFF, BE is 0 when EOBRUN is 0, and BE with the bits of a block never exceeds MAX_CORR_BITS |
| EobRuns.FlushEmits | TMessagesProj/jni/libjpeg/jcphuff.c:315-340 | a flush emits the EOBn symbol with its run length and then the correction bits that waited for it, in their order |
| CodingRules.EobRule | TMessagesProj/jni/libjpeg/jcphuff.c:315-340 | a run of 2^n to 2^(n+1) - 1 bands is the symbol n * 16 with the low n bits of its length |
| CodingRules.RunRule | TMessagesProj/jni/libjpeg/jcphuff.c:550-557 | up to 32766 empty bands wait, and 32767 go out as one run |
| CodingRules.WaitingRule | TMessagesProj/jni/libjpeg/jcphuff.c:708-722 | a band that has only correction bits joins the run, which goes out when it is full or more than 937 bits wait |
| EobRuns.ChunkStep | TMessagesProj/jni/libjpeg/jdphuff.c:372-427 | block by block the decoder finds the EOB run where the encoder's history left it |
| ProgScan.CodingGood | TMessagesProj/jni/libjpeg/jcphuff.c:636-706 | what a block contributes keeps within MAX_CORR_BITS |
| ProgEncoder.PhuffEncoder.EmitEobrun | TMessagesProj/jni/libjpeg/jcphuff.c:315-340 | the pending run and its bits are emitted and EOBRUN and BE are 0, in the output and in the statistics pass alike |
| ProgEncoder.PhuffEncoder.Prepass | TMessagesProj/jni/libjpeg/jcphuff.c:636-650 | absolute values after the point transform, and the place of the last newly nonzero coefficient |
| ProgEncoder.PhuffEncoder.BandRefine | TMessagesProj/jni/libjpeg/jcphuff.c:652-706 | the coefficient loop of AC refinement emits the groups of the band and keeps the bits behind the last one |
| ProgEncoder.PhuffEncoder.EncodeAc | TMessagesProj/jni/libjpeg/jcphuff.c:463-562 | an AC block, first stage or refinement, takes the coder from one state of the run to the next as the block's coding prescribes; the errors have their causes |
| ProgEncoder.PhuffEncoder.EncodeDcFirst | TMessagesProj/jni/libjpeg/jcphuff.c:376-460 | differences of the DC values after an arithmetic shift by Al, component by component |
| CodingRules.ProgPredictionRule | TMessagesProj/jni/libjpeg/jcphuff.c:400-430 | the prediction is the last DC coefficient of the same component, rounded down to a multiple of 2^Al |
| ProgEncoder.PhuffEncoder.EncodeDcRefine | TMessagesProj/jni/libjpeg/jcphuff.c:570-610 | bit Al of each DC value, without symbols |
| ProgEncoder.PhuffEncoder.EmitRestart | TMessagesProj/jni/libjpeg/jcphuff.c:346-374 | the pending run is flushed and the interval closed with its marker before the statistics start afresh |
| ProgEncoder.PhuffEncoder.EncodeMcu | TMessagesProj/jni/libjpeg/jcphuff.c:376-738 | one MCU in any of the four modes, output or statistics: the tokens so far are those of the MCUs so far, interval by interval |
| ProgPasses.CodeScan | TMessagesProj/jni/libjpeg/jcphuff.c:376-759 | a whole pass; output and statistics pass go through the same history and differ only in where the tokens go |
| ProgPasses.FinishGatherProg | TMessagesProj/jni/libjpeg/jcphuff.c:766-806 | every table the scan needs is made for exactly the tokens of the output pass |
| ProgCompress.FinishOutput | TMessagesProj/jni/libjpeg/jcphuff.c:745-759 | the last run is flushed, the last segment completed; every segment holds the tokens of its interval |
| ProgMeaning.AcFirstReads | TMessagesProj/jni/libjpeg/jdphuff.c:350-430 | a first-stage band is read to sign(c) * ((abs(c) >> Al) << Al) for each of its coefficients, EOB runs across blocks included |
| ProgMeaning.AcRefineReads | TMessagesProj/jni/libjpeg/jdphuff.c:489-632 | a refinement takes each coefficient of the band from precision Al+1 to Al, EOB runs and deferred bits included |
| ProgMeaning.BitRefines | TMessagesProj/jni/libjpeg/jdphuff.c:433-482 | setting bit Al in a DC value known to precision Al+1 makes it known to precision Al |
| ProgRoundTrip.ProgMcuReads | TMessagesProj/jni/libjpeg/jdphuff.c:285-632 | from the bits of its tokens an MCU of any progressive scan is decoded to what the scan makes known, with EOBRUN and predictions as in the encoder |
| RefineTrack.CorrectTwice | TMessagesProj/jni/libjpeg/jdphuff.c:567-575 | reading a correction bit a second time changes nothing |
| RefineTrack.LeadsEnd | TMessagesProj/jni/libjpeg/jdphuff.c:524-631 | from every intermediate state of an attempt the block leads to the result of an undisturbed decoding |
| RefineDecoder.Undo | TMessagesProj/jni/libjpeg/jdphuff.c:626-632 | newly nonzero coefficients, and nothing else, are set back to zero |
| RefineDecoder.DecodeRefined | TMessagesProj/jni/libjpeg/jdphuff.c:489-632 | decode_mcu_AC_refine in place: the block becomes what the stream means; suspended and undone, it is a block from which the next attempt arrives at the same result although corrections stay |
| ProgDecoder.PhuffDecoder.DecodeDcFirst | TMessagesProj/jni/libjpeg/jdphuff.c:285-347 | DC values with Al zeros below them |
| ProgDecoder.PhuffDecoder.DecodeDcRefine | TMessagesProj/jni/libjpeg/jdphuff.c:433-482 | one bit for each block, even after the segment has run dry |
| ProgDecoder.PhuffDecoder.ProcessRestart | TMessagesProj/jni/libjpeg/jdphuff.c:226-259 | as in sequential mode, and the EOB run does not outlive the interval |
| ProgDecoder.PhuffDecoder.DecodeMcu | TMessagesProj/jni/libjpeg/jdphuff.c:285-632 | the MCU becomes what the stream and its former contents mean; suspended, everything the next attempt depends on is as it was |
| AnyProgStream.DecodeRun | TMessagesProj/jni/libjpeg/jdphuff.c:226-632 | on any stream a run over a progressive scan is a function of the stream and of the blocks it started with |
| AnyProgStream.EitherWay | TMessagesProj/jni/libjpeg/jdphuff.c:226-632 | two runs that are given their bytes in any two ways end alike, AC refinement with its rolled-back coefficients included |
| AnyProgStream.RunsDry | TMessagesProj/jni/libjpeg/jdphuff.c:285-632 | once a segment has run dry no scan of any kind changes a block before the next restart marker |
| ProgTheorem.ReadProgScan | TMessagesProj/jni/libjpeg/jdphuff.c:285-632 | reading a stream made of a scan, in pieces of any size, turns every block of the store into what the scan makes known of it |
| ProgCompress.CompressProg | TMessagesProj/jni/libjpeg/jcphuff.c:376-806 | statistics, tables and output of a progressive scan; refused exactly if a coefficient is out of range, or for an overflow of a selected table; the tables of a refinement scan give the decoder no occasion to warn of a bad code |
| ProgCompress.RestoreProgScan | TMessagesProj/jni/libjpeg/jdphuff.c:285-632 | from parameters, tables and bytes alone the blocks of the store become what the scan makes known of the MCUs it was made of |
| ProgCompress.ProgScanRoundTrip | TMessagesProj/jni/libjpeg/jcphuff.c:376-806 | encoding and decoding of any progressive scan with any restart interval and any division of the input: each covered coefficient goes to the precision of the scan, nothing else changes, once all bytes have been delivered |
| Scripts.ValidateScript | TMessagesProj/jni/libjpeg/jcmaster.c:129-261 | accepts a script if and only if it is acceptable, and reports missing data exactly if only completeness fails: components in range and in order, spectral bands and bit positions legal, DC before AC, each bit sent once and in order, every component sent |
| ScriptLaws.AcceptableIsLawful | TMessagesProj/jni/libjpeg/jcmaster.c:129-261 | acceptable is a script exactly if, scan by scan and without last_bitpos, each coefficient is first sent with Ah = 0 and then bit by bit, AC coefficients by themselves and after DC, or whole components once each, and every component is sent |
| ScriptLaws.EveryComponentSent | TMessagesProj/jni/libjpeg/jcmaster.c:240-259 | an accepted script sends the DC coefficients of every component |
| Progressions.StartProgression | TMessagesProj/jni/libjpeg/jdphuff.c:99-145 | refuses a scan exactly for the parameter errors listed there, and warns exactly if the order of scans is not the regular one |
| Progressions.LegalityCarriesOver | TMessagesProj/jni/libjpeg/jdphuff.c:99-145 | a scan that validate_script lets pass is neither refused nor warned about by the decoder |
| Progressions.LegalityIs | TMessagesProj/jni/libjpeg/jdphuff.c:99-145 | conversely, what the decoder takes without a warning is what validate_script lets pass, except for coefficients that have been sent to the last bit and bit positions above 10 |
| Progressions.FollowScript | TMessagesProj/jni/libjpeg/jdphuff.c:91-192 | over a whole accepted script the decoder reports no error and no JWRN_BOGUS_PROGRESSION, and coef_bits mirrors what has been sent |
| Progressions.SimpleProgression | TMessagesProj/jni/libjpeg/jcparam.c:534-608 | for 1 to 10 components the script space, enlarged if need be, receives exactly nscans entries of the recommended script |
| Progressions.SimpleScriptSendsAll | TMessagesProj/jni/libjpeg/jcparam.c:474-608 | the recommended script is acceptable and progressive and ends with every coefficient at Al = 0 |
| Progressions.YccIs | TMessagesProj/jni/libjpeg/jcparam.c:573-592 | the ten scans for YCbCr |
| Progressions.AllPurposeScript | TMessagesProj/jni/libjpeg/jcparam.c:593-605 | the scans for other images of up to four components |
| Transmission.ScanAdvances | TMessagesProj/jni/libjpeg/jcphuff.c:376-759 | what a scan makes known of a block is exactly the step from the precision before to the precision after it |
| Transmission.ScanIsReady | TMessagesProj/jni/libjpeg/jcmaster.c:129-261 | after an accepted beginning of a script each block is known as the next scan relies on |
| Transmission.TransmitScan | TMessagesProj/jni/libjpeg/jcphuff.c:376-759 | one scan of a script, over its stream, keeps every genuine block known to the precision sent so far |
| Transmission.TransmitScript | TMessagesProj/jni/libjpeg/jcphuff.c:376-759 | over any accepted script every coefficient of every genuine block ends at the precision of the last scan that covered it, and every DC coefficient at some precision; a scan is refused only for a coefficient out of range or an overflow, and if none is and all bytes arrive all scans are decoded |
| Transmission.DcAlwaysArrives | TMessagesProj/jni/libjpeg/jcmaster.c:240-250 | with an accepted script the DC coefficient of every genuine block ends known to within 2^Al of its last scan |
| Transmission.NothingLost | TMessagesProj/jni/libjpeg/jcphuff.c:376-759 | if every coefficient was last sent with Al = 0 the blocks are the originals |
| Transmission.RecommendedScriptRestores | TMessagesProj/jni/libjpeg/jcparam.c:534-608 | with the recommended script the blocks are the originals |
| ImageTransmission.TransmitImage | TMessagesProj/jni/libjpeg/jccoefct.c:340-395 | the same for an image given by its dimensions and sampling factors, the scans walking as the coefficient controllers do: every block within the image is known to the precision sent, its DC coefficient in any case |
| Geometry.RoundUpIs | TMessagesProj/jni/libjpeg/jutils.c:71-78 | jdiv_round_up is the least multiple count that reaches a |
| Geometry.NestedRoundUp | TMessagesProj/jni/libjpeg/jcmaster.c:93-123 | rounding up ceil(a * h / d) / h gives ceil(a / d) |
| Geometry.BlocksCoverSamples | TMessagesProj/jni/libjpeg/jcmaster.c:93-114 | in each direction the blocks of a component cover its samples and the last one is needed |
| Geometry.GridMeans | TMessagesProj/jni/libjpeg/jcmaster.c:307-381 | a scan of one component has one block to an MCU, and the blocks cover the component; an interleaved one has h times v blocks of each component, listed in order, and its MCUs cover the image |
| Geometry.InitialSetup | TMessagesProj/jni/libjpeg/jcmaster.c:46-123 | succeeds exactly for legal dimensions, a scan line that fits JDIMENSION, 8-bit precision and legal component counts and sampling factors, with the true maxima of the factors |
| Geometry.BlocksInMcus | TMessagesProj/jni/libjpeg/jdinput.c:41-120 | for all dimensions and factors the blocks of a component fill all MCUs but the last in each direction, and reach into the last |
| Geometry.LastPartIs | TMessagesProj/jni/libjpeg/jcmaster.c:365-371 | last_col_width and last_row_height are what is left for the last MCU |
| Geometry.PerScanSetup | TMessagesProj/jni/libjpeg/jcmaster.c:307-381 | fails exactly for more than 4 components or more than 10 blocks in an MCU, and otherwise sets up grid, MCU sizes, last column and row, and membership |
| McuWalk.CompressController.CompressOutput | TMessagesProj/jni/libjpeg/jccoefct.c:340-395 | one iMCU row, resumed where the entropy encoder suspended; the MCUs handed over so far are the beginning of the walk |
| McuWalk.DecompressController.ConsumeData | TMessagesProj/jni/libjpeg/jdcoefct.c:254-352 | the same for the entropy decoder; the end of the scan is reported with the last iMCU row |
| McuWalk.SameWay | TMessagesProj/jni/libjpeg/jdcoefct.c:254-352 | at any time one side's MCUs are a beginning of the other's, and at the end of the scan they are the same |
| McuWalk.MetOnce | TMessagesProj/jni/libjpeg/jccoefct.c:362-378 | no block is visited twice |
| McuWalk.Met | TMessagesProj/jni/libjpeg/jccoefct.c:362-378 | every block of the MCU grid is visited |
| McuWalk.McuOrder | TMessagesProj/jni/libjpeg/jccoefct.c:362-378 | an MCU has the blocks of one component after the other, each from left to right and from top to bottom |
| McuWalk.PaddingColumns | TMessagesProj/jni/libjpeg/jcmaster.c:365-368 | in an interleaved scan a visited block lies right of the image if and only if its MCU is in the last column and the block at or beyond last_col_width |
| McuWalk.PaddingRows | TMessagesProj/jni/libjpeg/jcmaster.c:369-371 | it lies below the image if and only if its MCU is in the last row and the block at or beyond last_row_height |
| McuWalk.NoPadding | TMessagesProj/jni/libjpeg/jcmaster.c:315-338 | a scan of one component visits no padding |
| ScanLayout.LayoutIsGood | TMessagesProj/jni/libjpeg/jccoefct.c:340-395 | in storage order every genuine block of the scan's components is visited exactly once, and AC scans visit no other |
| FunnyPointers.MakeFunny | TMessagesProj/jni/libjpeg/jdmainct.c:194-234 | the two lists point to the workspace in normal order and with the last four row groups swapped |
| FunnyPointers.SetWraparound | TMessagesProj/jni/libjpeg/jdmainct.c:237-262 | the pointers before and after each list lead to its last and first row groups |
| FunnyPointers.SetBottom | TMessagesProj/jni/libjpeg/jdmainct.c:265-299 | the pointers behind the last real row repeat it, and those before it are kept |
| FunnyPointers.ViewMiddle | TMessagesProj/jni/libjpeg/jdmainct.c:384-447 | a row group inside an iMCU row is seen with the image rows next to it |
| FunnyPointers.ViewBottom | TMessagesProj/jni/libjpeg/jdmainct.c:265-299 | a row group of the last iMCU row is seen with the last real row repeated below the image |
| FunnyPointers.ViewPostponed | TMessagesProj/jni/libjpeg/jdmainct.c:429-446 | the postponed last row group of an iMCU row is seen with the first row of the next one |
| ContextMain.MainController.ProcessData | TMessagesProj/jni/libjpeg/jdmainct.c:384-447 | for any arrival of iMCU rows and any appetite of the postprocessor the row groups are handed out once each and in order, with the image's rows, clamped to the first and last real row, on both sides; there is progress whenever input and room are there |
| ContextMain.MainController.StartPass | TMessagesProj/jni/libjpeg/jdmainct.c:306-340 | a pass begins with the lists set up and nothing handed out |
| RowGroups.RowGroupsAgree | TMessagesProj/jni/libjpeg/jdmainct.c:280-297 | all components of an image agree on the number of row groups, which is the image height in row groups rounded up |
| RowGroups.StartContextPass | TMessagesProj/jni/libjpeg/jdmainct.c:306-340 | for any image whose components are scaled alike the controller starts in order, with that many row groups to hand out |
| ContextPrep.PrepController.ExpandBottomEdge | TMessagesProj/jni/libjpeg/jcprepct.c:105-116 | the rows from the image's end to the end of the stop are copies of the last one |
| ContextPrep.SeesWindow | TMessagesProj/jni/libjpeg/jcprepct.c:266-305 | through the five groups of pointers the three groups of the ring show the V rows of a row group and the V rows above and below it, clamped to the image |
| ContextPrep.PrepController.PreProcess | TMessagesProj/jni/libjpeg/jcprepct.c:194-259 | for any image height and any chunking of input and output the k-th downsample call sees the image rows kV - V to kV + 2V - 1 clamped to the image; rows are consumed and groups produced as counted, until one side is exhausted |
| TriangleFilter.TriangleMoves | TMessagesProj/jni/image.c:198-212 | when the window moves by one the weighted sum changes by the running difference |
| TriangleFilter.ChangeMoves | TMessagesProj/jni/image.c:198-212 | and that difference changes by three samples |
| TriangleFilter.TriangleBound | TMessagesProj/jni/image.c:198-212 | the weighted sum is at most (r+1)^2 times the greatest sample |
| TriangleFilter.TriangleUniform | TMessagesProj/jni/image.c:198-212 | samples that are all alike are multiplied by (r+1)^2, at the edges too |
| PackedLanes.PackedTriangle | TMessagesProj/jni/image.c:59-61 | the sum over packed words is the packing of the sums of the three channels |
| PackedLanes.Shade | TMessagesProj/jni/image.c:176-184 | shift and mask divide each lane by (r+1)^2 without carry from its neighbour |
| FastBlur.GetColors | TMessagesProj/jni/image.c:59-61 | three bytes are put into lanes of 16 bits from which each reads back |
| FastBlur.BlurRow | TMessagesProj/jni/image.c:186-221 | a row of the intermediate image is the triangular convolution of the row, edges clamped, floored |
| FastBlur.BlurColumn | TMessagesProj/jni/image.c:223-254 | a column of the result is the convolution of the intermediate column |
| FastBlur.Blur | TMessagesProj/jni/image.c:152-257 | for radius 1, 3, 7 or 15 and stride 4w the picture is blurred in both directions; in all other cases it is untouched |
| FastBlur.BlurMore | TMessagesProj/jni/image.c:63-150 | at radius 7 it does the same as fastBlur |
| FastBlur.BlurMeans | TMessagesProj/jni/image.c:152-257 | channel by channel and pixel by pixel the result is two floored triangular means with weights r + 1 - abs(j), and the fourth byte is the old one |
| FastBlur.UniformStays | TMessagesProj/jni/image.c:152-257 | a picture of one colour stays as it is |

## Left out

- DCT and inverse DCT, quantisation, colour conversion, up- and downsampling, dithering.
- Headers and the markers between scans: the stream of a scan is modelled from its first entropy-coded byte to the marker that ends it, and may be followed by anything; DHT, SOS and DRI segments are not written or parsed, so both sides are given the same tables and parameters.
- Output suspension of the encoders (`dump_buffer`): the destination takes every byte.
- Restart-marker error recovery (`jpeg_resync_to_restart`): a wrong marker is an outcome, what follows it is not modelled.
- A source manager that has bytes again in the middle of an MCU after refusing them: it is asked anew from the start of the MCU.
- Memory pools, virtual arrays and their backing store, trace messages, warnings other than JWRN_BOGUS_PROGRESSION, progress monitors.
- Arithmetic coding, APPn and COM markers, smoothing, single-pass compression (`compress_data`, which pads MCUs with dummy blocks of its own).
- Tile decoding (`consume_data` with column boundaries, `jpeg_read_tile_scanline`) beyond seeking to an index entry, and the progressive index.
- OptimalTable.GenOptimalTable: the counts are those of 1 to 254 used symbols with a total of at most 10^9; with none the search for the longest length would run past the array, and beyond 254 a count no longer fits its byte or a sum passes the sentinel.
- SequentialTheorem.TwoPassRoundTrip: the counts of every table are within that range, and coefficients are 16-bit values as JCOEF is.
- ProgCompress.ProgScanRoundTrip: the same; before an AC scan the store holds what earlier scans have made known, which `Transmission.TransmitScript` establishes from the first scan on.
- McuDecoder.ScanDecoder.DecodeMcu: DC predictions are unbounded integers where the source has an int; an encoder's stream never leaves 16 bits.
- ScanIndex.BuildIndex: the resumption of an iMCU row after a suspension is not covered; in the source such a row allocates its entries anew although it goes on in the middle.
- ScanIndex.SeekAndDecode: the decoder's insufficient_data flag is clear, as it is at the start of a pass (configuring the decoder does not clear it); the file is shorter than 2^27 bytes, beyond which `HuffIndex.PackingLossless` says that positions are lost; and the segment has not run dry before the entry's MCU.
- Geometry.InitialSetup: long integers have 64 bits; with 32 bits the check of the scan line's width never fails.
- ContextMain.MainController.ProcessData: of the rows above and below a row group one on each side is promised, which is what the upsamplers use; the coefficient controller's iMCU rows are given.
- ContextPrep.PrepController.PreProcess: a row stands for the row of every component after colour conversion, whose work is not modelled.
- FastBlur.Blur: rows do not overlap (stride at least 4w) and w * h fits an int, as the callers ensure; the result of malloc is a parameter.
- FastBlur.BlurMore: radii other than 7, for which its shift does not fit its kernel.
- RefineDecoder.DecodeRefined: the list of newly nonzero positions is a sequence; that it never exceeds the 64 places of the source follows from the band's length.
