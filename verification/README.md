# Verified models of the storage engine's tree and codecs

This project models four pieces of the repository in Dafny and proves what they are for.

- **FSE**, the table-based asymmetric numeral coder of `src/repo/fse` (its format is that of
  section 4.1 of RFC 8878): count normalisation, header, symbol spreading, coding tables, the
  bit register, the two interleaved states, and the round trip of a whole block.
- **Huffman** coding with limited code length, from the same directory (section 4.2 of RFC
  8878): bucket sort, two-queue tree, depth limit, canonical codes, the implied last weight, the
  single- and double-symbol decoding tables, and the round trip of one stream.
- **LZ4** blocks, `src/repo/lz4-r101`: the greedy matcher, the token format, the decoder for
  untrusted input with its overlapping word copies, the round trip and the size bound.
- The **B+ tree** with unique keys of `src/stx/btree.h`: insertion with splits, erasure with its
  repairs, the linked leaves, lookup and iteration, and the permuted slots of a leaf page.

Where the source changes things in place, the model does too: classes `CStream`, `DStream`,
`Btree`, `Surface` and `LeafPages` have the source's fields, and arrays are filled by the source's loops. Each
such method is proved against a specification on plain sequences, and what the source promises is
proved about that specification. The build modelled is the 64-bit little-endian one.

The files, from the ground up:

- `Bits`, `BitStream`, `BitStack`, `Counts`: numbers as bit strings, the backward bit stream as a
  stack, and sums of counts.
- `FseSpread`, `FseTable`, `FseStream`, `FseHeader`, `FseNormalize`, `FseShare`, `Fse`, `FseBound`.
- `HufSort`, `HufTree`, `HufHeight`, `HufDepth`, `HufTable`, `HufStream`, `HufDouble`, `HufDoubleStep`,
  `HufBuild`, `HufStats`.
- `Lz4Format`, `Lz4Copy`, `Lz4Greedy`, `Lz4Compress`, `Lz4Decompress`, `Lz4Verdict`.
- `BtreeItems`, `BtreeTree`, `BtreeInsert`, `BtreeErase` (on values), `BtreeHeap`,
  `BtreeInsertPages`, `BtreeErasePages`, `BtreeSearch`, `BtreeCursor`, `BtreeStore` (on pages),
  `BtreeSurface` (one leaf page), `BtreeLeaves` (all of them behind the tree).

These results show where the code falls short of what one would expect of it, each with the
exact condition:

- The FSE block round trip holds if and only if the last symbol but one does not own the whole
  table (`FseStream.BlockRoundTrip`, `FseStream.OwnedTableFails`): otherwise the decoder never
  runs dry and reports that the destination is too small.
- `FSE_compress_usingCTable` chooses unchecked flushes from `FSE_BLOCKBOUND` on. They stay inside
  the destination if and only if the coded symbols do (`FseStream.CompressUsingCTable`); symbols
  of one cell each do not (`FseStream.BoundOverrun`, `FseStream.RareOverrun`).
- So `FSE_compress2` can leave a destination of the size that `FSE_compressBound` gives, although
  the norms are those of the source's own histogram: with a table log of 9 it does for every order
  of 51,200 bytes in which 121 symbols occur 145 times, 134 occur 248 times and one 423 times
  (`FseBound.BoundTooSmall`, `FseBound.UnevenExists`). The exact condition is that of
  `Fse.Compress`.
- `FSE_compress2` with a table log of 0 sizes its work space by a shift of -1, which C leaves
  undefined, before it replaces 0 by the default, although 0 is documented to mean the default.
  `Fse.Compress` answers `Undefined` exactly then.
- `FSE_writeNCount` chooses unchecked writes from `FSE_NCountWriteBound` on, which can be one byte
  less than the header needs (`FseHeader.WriteBoundShort`); `FSE_NCOUNTBOUND` never is
  (`FseHeader.HeaderFits`). For norms of a wrong total the writer stops where some symbols use the
  points up, fails at a symbol that wants too many, or reads past the norms if there are too few
  points, each under its exact condition (`FseHeader.Endings`, `FseHeader.WriteNCount`).
- The closing test of the FSE table builders lets through no round at all and several rounds
  (`FseTable.WrongTotalsAccepted`); it refuses exactly totals that are not whole rounds.
- `FSE_normalizeCount` divides by zero on a source of pairwise different symbols, as many as the
  table has cells, and on no other (`FseNormalize.NormalizeCount`). `FSE_compress2` never passes
  such a source. The error return of the fallback is never taken (`FseNormalize.ShareOut`).
- On the primary path of `FSE_normalizeCount` a symbol can get more than a cell less than its share,
  because the fixed-point step is rounded down: exactly when it takes the last whole cell from a
  share above eight that exceeds a whole number by very little (`FseShare.WithinOneCell`,
  `FseShare.SomebodyShort`); never for totals up to 2^25 (`FseShare.NobodyShort`).
- `HUF_setMaxHeight` keeps its debt in 32 bits: the code it returns is complete if and only if the
  debt fits (`HufHeight.SetMaxHeight`). 39 symbols counting the Fibonacci numbers are too many for
  it (`HufDepth.FibonacciWraps`), and `HUF_buildCTable` then returns an overfull code
  (`HufBuild.FibonacciCode`); a total below 5,702,887, and so any block of the 128 KB that
  `HUF_compress` accepts, is not (`HufDepth.DepthNeeds`, `HufBuild.BuildCTable`).
- A Huffman header is refused by its reader if and only if it carries a weight of twelve
  (`HufStats.RoundTrip`), which takes a limit of twelve bits.
- `LZ4_decompress_safe` reads one byte outside an empty input, unless the output is empty, too
  (the condition of `Lz4Decompress.Decompress`).
- The branch of `insert_descend` that corrects the split key after an insertion at the end of the
  left half is never taken (`BtreeInsertPages.LastPut`), and the branch of
  `init_key_allocation` that gives slots up again is never taken (`BtreeSurface.RoomLeft`).

## Model

| member | source | states |
|---|---|---|
| BitStream.CStream.AddBits | src/repo/fse/bitstream.h:228-236 | appends the low bits of the value to the bit string, whatever else the value holds |
| BitStream.CStream.AddBitsFast | src/repo/fse/bitstream.h:240-247 | the same for a value that fits, without the mask |
| BitStream.CStream.FlushBits | src/repo/fse/bitstream.h:268-277 | keeps the bit string, leaves at most seven bits in the register, never writes past the buffer |
| BitStream.CStream.FlushBitsFast | src/repo/fse/bitstream.h:252-261 | the store without the bound check: as long as the pointer stays at or before the end, it keeps the bit string, too |
| BitStream.CStream.Close | src/repo/fse/bitstream.h:282-288 | fails exactly when the string and its end mark do not fit; otherwise the bytes are the string with an end mark |
| BitStream.DStream.constructor | src/repo/fse/bitstream.h:300-346 | starts with exactly the bits below the end mark, for long and short sources |
| BitStream.DStream.ReadBits | src/repo/fse/bitstream.h:408-413 | inside the register, pops the top of what remains |
| BitStream.DStream.ReadBitsFast | src/repo/fse/bitstream.h:417-423 | the same with one shift fewer, for at least one bit |
| BitStream.DStream.Reload | src/repo/fse/bitstream.h:430-457 | never changes what remains; the status is exact: an unfinished one leaves at least 57 bits in the register, any other one has reached the start |
| BitStream.DStream.EndOfDStream | src/repo/fse/bitstream.h:462-465 | holds exactly when everything has been read |
| BitStream.LookBitsFastAgrees | src/repo/fse/bitstream.h:380-397 | the fast look agrees with the plain one from one bit on |
| BitStream.LookInStream | src/repo/fse/bitstream.h:380-389 | looking at the register shows the next bits of the stream, wherever the register stands |
| BitStream.PayloadOfStream | src/repo/fse/bitstream.h:282-346 | what was closed is what opening it again finds |
| BitStack.PushAll | src/repo/fse/bitstream.h:213-277 | adding leaves the register exactly when the flush schedule leads out of it; otherwise the bit string is the fields in order |
| BitStack.FlushingAlways | src/repo/fse/bitstream.h:268-277 | flushing behind every field is such a schedule, for every width that has a mask |
| BitStack.PopOne | src/repo/fse/bitstream.h:408-465 | one read with or without a reload: whether it stays inside, what it gives, and whether it was the last |
| BitStack.PopAll | src/repo/fse/bitstream.h:408-465 | a read leaves the register exactly when the reload schedule leads out of it; otherwise the masked values come off last in, first out, and the end test holds exactly when no bits are left |
| BitStack.ReloadingAlways | src/repo/fse/bitstream.h:430-457 | reloading in front of every field is such a schedule |
| BitStack.PushThenPop | src/repo/fse/bitstream.h:213-465 | the stream is a stack, for every list of widths and every pair of schedules that stay inside the registers; it is refused exactly when it does not fit |
| FseSpread.VisitInjective | src/repo/fse/fse.h:695-695 | the odd step visits no cell twice in a round |
| FseSpread.VisitSurjective | src/repo/fse/fse_compress.c:120-132 | and every cell once |
| FseSpread.VisitReturns | src/repo/fse/fse_compress.c:125-132 | after a round the walk is back at cell 0 |
| FseSpread.VisitIs | src/repo/fse/fse_compress.c:125-132 | cell number k of the walk is k steps of five eighths of the table and three |
| FseSpread.LowInOrder | src/repo/fse/fse_compress.c:107-116 | symbols of norm -1 are laid by rising symbol |
| FseSpread.OccurrencesInOrder | src/repo/fse/fse_compress.c:120-132 | and so are the others, along the walk |
| FseSpread.RankFull | src/repo/fse/fse_compress.c:120-132 | of the cells visited in a round, exactly those below the threshold are usable |
| FseSpread.NextPosition | src/repo/fse/fse_compress.c:127-128 | the inner skip loop ends at the next usable cell of the walk |
| FseSpread.LayLowSymbols | src/repo/fse/fse_compress.c:107-116 | symbols of norm -1 fill the cells from the top, in order |
| FseSpread.SpreadSymbols | src/repo/fse/fse_compress.c:107-132 | accepts exactly norms whose positive part is a whole number of rounds; for the right total the table is the spread |
| FseSpread.SpreadCounts | src/repo/fse/fse_compress.c:120-132 | each symbol gets exactly as many cells as its norm says |
| FseSpread.SpreadUnique | src/repo/fse/fse_decompress.c:107-136 | encoder and decoder place the symbols identically |
| FseTable.CumulativeStarts | src/repo/fse/fse_compress.c:107-116 | where the states of each symbol begin |
| FseTable.SortStates | src/repo/fse/fse_compress.c:134-138 | the state table is the spread sorted by symbol |
| FseTable.SymbolTransforms | src/repo/fse/fse_compress.c:140-161 | the transform of each symbol, for norms 0, 1, -1 and larger ones |
| FseTable.BuildCTable | src/repo/fse/fse_compress.c:85-164 | a small work space is refused; a wrong total is refused exactly when it is not a whole number of rounds; the right total gives an encoding table of the norms |
| FseTable.BuildDTable | src/repo/fse/fse_decompress.c:93-148 | the same closing test; too many symbols or too large a log are refused first; the right total gives a decoding table of the norms |
| FseTable.WrongTotalsAccepted | src/repo/fse/fse_compress.c:120-132 | the closing test lets no round at all and two rounds pass |
| FseTable.TransformWorks | src/repo/fse/fse.h:563-570 | from every state, the bits sent bring the state into the symbol's range |
| FseTable.StepInverse | src/repo/fse/fse.h:563-570 | encoding from any state stays in range, and the decoding cell of the new state gives back symbol, bit count and old state |
| FseTable.InitWorks | src/repo/fse/fse.h:552-561 | a stream starts in the first cell of its symbol, which asks for a bit, exactly unless the symbol owns the table |
| FseTable.CellInRange | src/repo/fse/fse_decompress.c:138-145 | every cell leads back into the table; in fast mode it asks for a bit |
| FseStream.DecodeEncode | src/repo/fse/fse_compress.c:702-759 | decoding inverts encoding, state by state, for the two interleaved states |
| FseStream.BlockRoundTrip | src/repo/fse/fse_decompress.c:200-261 | decoding a block returns exactly the source, when there is room, and stops by the overflow test at the last symbol but one |
| FseStream.OwnedTableFails | src/repo/fse/fse_decompress.c:243-258 | the converse: when the last symbol but one owns the table, no room is enough |
| FseStream.EncodeSymbol | src/repo/fse/fse.h:563-570 | the register form of an encoding step appends the bits of the specification |
| FseStream.EncodeStart | src/repo/fse/fse_compress.c:720-728 | the first two or three symbols |
| FseStream.EncodeJoin | src/repo/fse/fse_compress.c:730-736 | two more where the rest is not a multiple of four |
| FseStream.EncodeFours | src/repo/fse/fse_compress.c:738-754 | the main loop, inside the buffer exactly when the coded symbols are |
| FseStream.CompressUsingCTable | src/repo/fse/fse_compress.c:702-759 | zero exactly when the source or the buffer is too small, otherwise the stream of the block; with unchecked flushes it stays inside the buffer exactly when the coded symbols fit |
| FseStream.CompressChoosing | src/repo/fse/fse_compress.c:761-771 | the unchecked flushes are chosen exactly from the block bound on, with what follows from it |
| FseStream.AmpleRoom | src/repo/fse/bitstream.h:252-261 | twelve bits a symbol are always enough room for them |
| FseStream.PowerBits | src/repo/fse/fse.h:563-570 | a symbol whose share is a power of two costs the same number of bits from every state |
| FseStream.Billed | src/repo/fse/fse_compress.c:702-759 | a block is at least as long as the prices of its symbols together |
| FseStream.BoundOverrun | src/repo/fse/fse_compress.c:765-768 | symbols of one cell each leave a buffer of the block bound, whatever their number |
| FseStream.RareOverrun | src/repo/fse/fse.h:315-315 | such a source, of any length that has a stream, does so through the tables and the choice of the source |
| FseStream.DecodeSymbol | src/repo/fse/fse.h:615-624 | one step of the register decoder is one step of the specification |
| FseStream.DecodeTail | src/repo/fse/fse_decompress.c:243-258 | the tail loop with its overflow test |
| FseStream.DecodeFours | src/repo/fse/fse_decompress.c:223-241 | the unrolled loop never reads past the register |
| FseStream.DecompressUsingDTable | src/repo/fse/fse_decompress.c:200-261 | on any input, the register decoder computes what the bit-by-bit decoder computes, with each error case |
| FseStream.CompressThenDecompress | src/repo/fse/fse_compress.c:761-771 | tables, choice, encoder and decoder together: whatever is not refused comes back, a refusal bounds the size, and the buffer is left only between the block bound and twelve bits a symbol |
| FseHeader.ReadCodeInverse | src/repo/fse/entropy_common.c:124-136 | the shrinking-threshold code is read back with its length |
| FseHeader.HeaderIsRead | src/repo/fse/entropy_common.c:71-160 | what a header with a byte behind it says, bit by bit, is its table log, its norms and its length |
| FseHeader.WriteBlocks | src/repo/fse/fse_compress.c:215-225 | zero runs in blocks of 24 |
| FseHeader.WritePairs | src/repo/fse/fse_compress.c:226-230 | then of 3 |
| FseHeader.WriteRun | src/repo/fse/fse_compress.c:214-240 | and the remainder |
| FseHeader.WriteCount | src/repo/fse/fse_compress.c:241-252 | one norm with the code for what remains |
| FseHeader.WriteGeneric | src/repo/fse/fse_compress.c:186-271 | any norms: the words sent and how the loop ends decide the outcome exactly; checked or unchecked, room for the words sent so far is what counts |
| FseHeader.Endings | src/repo/fse/fse_compress.c:210-257 | any norms: the loop reads past the last one exactly if their total is too small, and finishes exactly if the first so many symbols use the points up |
| FseHeader.PrefixDescribed | src/repo/fse/fse_compress.c:210-257 | if they do, what is sent is the header of these symbols |
| FseHeader.WholeDescribed | src/repo/fse/fse_compress.c:210-257 | norms of the right total are described whole |
| FseHeader.CourseFits | src/repo/fse/fse.h:314-314 | the general bound is enough room for whatever is sent, also in front of a failure |
| FseHeader.HeaderFits | src/repo/fse/fse.h:314-314 | the general bound is enough room for every header |
| FseHeader.SingleFits | src/repo/fse/fse_compress.c:180-184 | for a single symbol the write bound is enough |
| FseHeader.WriteBoundShort | src/repo/fse/fse_compress.c:180-184 | the write bound can be a byte too small |
| FseHeader.WriteNCount | src/repo/fse/fse_compress.c:274-283 | unchecked exactly from the write bound on; any norms and table log: the header, a refusal, an overrun, an error or a read past the norms, each under its exact condition |
| FseHeader.SkipBlocks | src/repo/fse/entropy_common.c:99-107 | reads the blocks of 24, wherever the window stands |
| FseHeader.SkipPairs | src/repo/fse/entropy_common.c:108-114 | reads the blocks of 3 and the remainder |
| FseHeader.ReadSymbol | src/repo/fse/entropy_common.c:124-152 | reads one norm and moves the window, by bytes or to the last four |
| FseHeader.ReadNCount | src/repo/fse/entropy_common.c:71-160 | on any input safe, and accepted norms sum to the table size; if what the input says, bit by bit, does not depend on its last byte, that is the answer: norms and size, too many symbols, or points left over |
| FseNormalize.RoomForAll | src/repo/fse/fse_compress.c:467-474 | the table log check leaves fewer symbols than cells, if and only if the source is not that of pairwise different symbols filling the table |
| FseNormalize.MinIsLeast | src/repo/fse/fse_compress.c:467-474 | the smallest table log is the first with a cell for each symbol of the source or two for each symbol of the alphabet |
| FseNormalize.ExceptionDivides | src/repo/fse/fse_compress.c:499-534 | in that exception the table log is accepted, the primary pass gives every cell away, and the fallback has none left to divide by |
| FseNormalize.SettleLow | src/repo/fse/fse_compress.c:506-530 | first pass of the fallback: exactly those who deserve at most one and a half cells are settled |
| FseNormalize.SettleMore | src/repo/fse/fse_compress.c:532-543 | second pass, with the raised threshold, and exactly what it takes out |
| FseNormalize.SmallSource | src/repo/fse/fse_compress.c:532-534 | a source no larger than the table never needs the second pass |
| FseNormalize.DeservedLater | src/repo/fse/fse_compress.c:532-543 | after the second pass every symbol left deserves a cell |
| FseNormalize.Settle | src/repo/fse/fse_compress.c:506-543 | both passes: the divisor is zero exactly for as many symbols as cells; otherwise every symbol left deserves a cell |
| FseNormalize.GiveToLargest | src/repo/fse/fse_compress.c:545-554 | exit when every symbol is settled: the first of the most frequent takes the rest |
| FseNormalize.TakeTurns | src/repo/fse/fse_compress.c:556-561 | the redistribution loop ends and gives out exactly what is left; the symbols with a cell take turns |
| FseNormalize.ScaleExact | src/repo/fse/fse_compress.c:563-577 | the fixed-point intervals cover exactly the cells left |
| FseNormalize.CellDeserved | src/repo/fse/fse_compress.c:563-577 | the interval of a symbol that deserves a cell is at least a cell long |
| FseNormalize.ShareOut | src/repo/fse/fse_compress.c:563-577 | third exit: the norms sum to the table size, what the first so many symbols get together is less than a cell off what they deserve, and the error return is never taken |
| FseNormalize.NormalizeM2 | src/repo/fse/fse_compress.c:499-580 | all three exits with what they give: sum exact, zero exactly for absent symbols; it fails only by dividing by zero, exactly for as many symbols as cells |
| FseNormalize.ProbaRange | src/repo/fse/fse_compress.c:610-614 | the scaled share, with its rounding table, stays in range |
| FseNormalize.ScaleCounts | src/repo/fse/fse_compress.c:593-618 | the primary pass gives every symbol its rounded share, and says what remains to be distributed |
| FseNormalize.NormalizeCount | src/repo/fse/fse_compress.c:583-642 | every outcome with its exact condition; on success the norms sum to the table size and are zero exactly for absent symbols; they are the rounded shares with the rest on the first largest one, exactly if that bears less than half, and otherwise those of the fallback |
| FseShare.ProbaIsShare | src/repo/fse/fse_compress.c:610-614 | the scaled count is the exact share: cut to whole cells above eight, below rounded up exactly if the rest beats the bound, with what the fixed-point step loses |
| FseShare.WithinOneCell | src/repo/fse/fse_compress.c:610-614 | nobody gets a cell too much, rounding up ends at eight, and a cell or less is missing, if and only if the loss does not take a whole cell |
| FseShare.NobodyShort | src/repo/fse/fse_compress.c:595-595 | for totals up to 2^25 it does not |
| FseShare.SomebodyShort | src/repo/fse/fse_compress.c:595-595 | a symbol of a larger source for which it does |
| FseShare.SharesRise | src/repo/fse/fse_compress.c:602-616 | whoever occurs more often gets no less |
| FseShare.PrimaryAreShares | src/repo/fse/fse_compress.c:593-618 | the primary pass gives exactly these shares |
| FseShare.CorrectedInShares | src/repo/fse/fse_compress.c:583-642 | and success means: all but the first largest symbol have theirs, or the fallback was used |
| Fse.Histogram | src/repo/fse/fse_compress.c:297-317 | counts, the largest symbol and the largest count |
| Fse.OptimalIsEnough | src/repo/fse/fse_compress.c:476-493 | the chosen table log is legal and never below the minimum |
| Fse.OptimalIsLargest | src/repo/fse/fse_compress.c:476-493 | it is the largest log that is neither above the one asked for nor finer than a quarter of the source, unless source, alphabet or format need more |
| Fse.NormsFit | src/repo/fse/fse_compress.c:783-826 | normalised counts meet the demands of header, tables and stream |
| Fse.ChooseNorms | src/repo/fse/fse_compress.c:809-810 | a source of two symbols, one of them repeated, always has such norms |
| Fse.Compress | src/repo/fse/fse_compress.c:783-840 | every outcome with its exact condition: a table log of zero, one symbol, nothing to gain, no room, an overrun, or a block made of the header of fitting norms and the stream of the source, smaller than the source |
| Fse.CompressCounted | src/repo/fse/fse_compress.c:809-827 | the same behind the histogram |
| Fse.AmpleCapacity | src/repo/fse/fse_compress.c:774-774 | with the general bound for the header and twelve bits a symbol nothing overruns |
| Fse.Decompress | src/repo/fse/fse_decompress.c:278-305 | on any input, what header and stream say decides the outcome; a block gives the source back |
| Fse.RoundTrip | src/repo/fse/fse_decompress.c:302-305 | compressing and decompressing returns the source, for every table log but 0 and every block |
| FseBound.CostIsDot | src/repo/fse/fse_compress.c:297-317 | what the symbols of a source cost together depends on its histogram alone |
| FseBound.UnevenPrimary | src/repo/fse/fse_compress.c:593-618 | counts just below the rounding bounds lose almost half a cell each |
| FseBound.UnevenNorms | src/repo/fse/fse_compress.c:583-642 | and the one large symbol gets what they lost |
| FseBound.UnevenLong | src/repo/fse/fse_compress.c:702-759 | so the coded symbols of such a source are longer than the bound |
| FseBound.UnevenOverruns | src/repo/fse/fse_compress.c:765-768 | and the unchecked flushes, which the room chooses, leave the destination |
| FseBound.BoundTooSmall | src/repo/fse/fse_compress.c:774-774 | the whole of the compression does so for every source with that histogram |
| FseBound.SpelledHistogram | src/repo/fse/fse_compress.c:297-317 | counts that end with one of at least 1 are the histogram of some source |
| FseBound.UnevenExists | src/repo/fse/fse_compress.c:774-774 | there is a source with that histogram |
| HufSort.AllFalling | src/repo/fse/huf_compress.c:310-333 | the buckets one behind the other are in falling order |
| HufSort.AllStable | src/repo/fse/huf_compress.c:310-333 | of equally frequent symbols the smaller one comes first |
| HufSort.AllGiven | src/repo/fse/huf_compress.c:310-333 | and hold every symbol once, with its count |
| HufSort.RankBases | src/repo/fse/huf_compress.c:316-321 | where each bucket starts |
| HufSort.InsertInto | src/repo/fse/huf_compress.c:323-331 | insertion in place keeps a bucket in order and touches nothing else |
| HufSort.Sort | src/repo/fse/huf_compress.c:310-333 | the array holds the buckets in order |
| HufTree.Pick | src/repo/fse/huf_compress.c:373-374 | the barriers make the choice fall on something that waits, and on the smaller of the two candidates |
| HufTree.CreateParents | src/repo/fse/huf_compress.c:362-378 | every node takes the two smallest counts waiting, a node before a symbol of the same count; only the root is left, and it counts everything |
| HufTree.Distribute | src/repo/fse/huf_compress.c:380-385 | depths from the root down |
| HufTree.LeavesFall | src/repo/fse/huf_compress.c:371-385 | rarer symbols are not shallower |
| HufTree.TreeComplete | src/repo/fse/huf_compress.c:361-385 | the depths are those of a complete code |
| HufDepth.PicksRise | src/repo/fse/huf_compress.c:371-378 | what is taken never gets smaller |
| HufDepth.DepthNeeds | src/repo/fse/huf_compress.c:361-385 | a depth of d needs a total of at least the Fibonacci number of d + 2 |
| HufDepth.SafeTotal | src/repo/fse/huf_compress.c:231-234 | below 5,702,887 no tree is deeper than 31; blocks have at most 131,072 symbols |
| HufDepth.FibDepths | src/repo/fse/huf_compress.c:361-385 | counts that are Fibonacci numbers give a chain |
| HufDepth.FibFits | src/repo/fse/huf_compress.c:233-245 | the debt of that chain leaves 32 bits exactly from 27 bits too many on |
| HufDepth.FibonacciWraps | src/repo/fse/huf_compress.c:233-245 | 39 such symbols do at the default limit, with a total far below the barrier |
| HufBuild.FibonacciCode | src/repo/fse/huf_compress.c:342-410 | the construction run on these counts with the default limit returns an overfull code |
| HufHeight.CutLong | src/repo/fse/huf_compress.c:229-245 | cutting long codes stops in time; the debt is a whole number of units, fewer than the codes cut, and is remembered exactly when it fits into 32 bits |
| HufHeight.DebtLeft | src/repo/fse/huf_compress.c:232-245 | what a 32-bit register keeps of a debt: all of it if and only if it fits, otherwise less |
| HufHeight.ShallowFits | src/repo/fse/huf_compress.c:231-240 | a code of at most 31 bits owes less |
| HufHeight.SkipMax | src/repo/fse/huf_compress.c:242-242 | a shorter code is always found |
| HufHeight.RankSymbols | src/repo/fse/huf_compress.c:252-259 | the last symbol of every rank |
| HufHeight.PickRank | src/repo/fse/huf_compress.c:262-275 | the rank taken is the highest worth no more than the debt whose last symbol is not dearer than two of the next rank; only if all of them are empty, the lowest above |
| HufHeight.RepayOne | src/repo/fse/huf_compress.c:262-286 | each repayment lengthens the last symbol of that rank by one bit, and keeps the code solvent |
| HufHeight.Repayment | src/repo/fse/huf_compress.c:276-286 | one repayment keeps order, ranks and the running Kraft sum |
| HufHeight.OvershootCovered | src/repo/fse/huf_compress.c:272-286 | after an overshoot there are enough full-length codes to shorten |
| HufHeight.GiveBackAll | src/repo/fse/huf_compress.c:288-299 | the overshoot is given back by the first full-length codes, which ends with exactly the forgotten part of the debt; a full-length code is left |
| HufHeight.SetMaxHeight | src/repo/fse/huf_compress.c:227-302 | from a complete code in order, for at most 2^max symbols, to depths of at most max in order: cut, repaid in the cheapest steps, overshoot given back; the last of them is the height returned; complete if and only if the debt fits into 32 bits, and otherwise overfull |
| HufTable.RangesApart | src/repo/fse/huf_decompress.c:121-132 | the ranges of different symbols do not meet |
| HufTable.OwnerExists | src/repo/fse/huf_decompress.c:121-132 | every cell belongs to a symbol |
| HufTable.RankStarts | src/repo/fse/huf_decompress.c:113-119 | starting cell of each weight |
| HufTable.FillTable | src/repo/fse/huf_decompress.c:121-132 | every cell holds its owner and the owner's code length |
| HufTable.HalvingExact | src/repo/fse/huf_compress.c:397-402 | for a complete code each halving is exact |
| HufTable.CodeStarts | src/repo/fse/huf_compress.c:391-402 | the first code of each length, in the table's own units where the code is complete |
| HufTable.AssignCodes | src/repo/fse/huf_compress.c:405-407 | each symbol's code is the beginning of its range where the code is complete |
| HufTable.CodeFindsSymbol | src/repo/fse/huf_decompress.c:121-132 | a code followed by any bits finds its symbol and length |
| HufTable.PrefixFree | src/repo/fse/huf_compress.c:391-407 | no code is the beginning of another |
| HufStream.Compress1X | src/repo/fse/huf_compress.c:457-501 | zero exactly when the stream does not fit; otherwise the codes from the last symbol to the first |
| HufStream.LookIsWindow | src/repo/fse/huf_decompress.c:146-153 | looking past the end of the stream fills up with zeros |
| HufStream.TopSymbol | src/repo/fse/huf_decompress.c:146-153 | the table finds the next symbol, and its length leads to the one after it |
| HufStream.DecodeSymbol | src/repo/fse/huf_decompress.c:146-153 | safe on any stream, and a pop when a code is on top |
| HufStream.DecodeStream | src/repo/fse/huf_decompress.c:166-189 | four symbols to a reload never leave the register, and the rest needs none |
| HufStream.Decompress1X | src/repo/fse/huf_decompress.c:191-211 | safe on any input; the inverse of the encoder |
| HufDouble.SortSymbols | src/repo/fse/huf_decompress.c:765-788 | the counting sort: by weight, then by number |
| HufDouble.RankValues | src/repo/fse/huf_decompress.c:790-807 | rank starts, and their copies shifted by the bits consumed |
| HufDouble.FillLevel2 | src/repo/fse/huf_decompress.c:635-673 | all cells of a first symbol |
| HufDouble.FillTableX4 | src/repo/fse/huf_decompress.c:678-718 | all cells of the table |
| HufDouble.ReadTableX4 | src/repo/fse/huf_decompress.c:720-818 | every cell holds what two greedy steps through the single-symbol table give |
| HufDoubleStep.DoubleStep | src/repo/fse/huf_decompress.c:309-316 | one lookup gives exactly the next one or two symbols of the text and their total length |
| HufBuild.SortedFacts | src/repo/fse/huf_compress.c:310-333 | what the sorted list says about the counts |
| HufBuild.SortedAlready | src/repo/fse/huf_compress.c:310-333 | counts that fall already stay as they are |
| HufBuild.LengthsBySymbol | src/repo/fse/huf_compress.c:403-404 | lengths by symbol keep the Kraft sum and the number of codes of each length |
| HufBuild.LimitedDepths | src/repo/fse/huf_compress.c:362-388 | for any total that keeps the shift in range: the limited depths of the unlimited tree, a complete code if and only if the debt of that tree fits into 32 bits |
| HufBuild.SortedDepths | src/repo/fse/huf_compress.c:358-388 | sorting, tree and limit: a complete code if and only if the debt of the unlimited tree fits into 32 bits, as it always does for a total below 5,702,887 |
| HufBuild.BuildCTable | src/repo/fse/huf_compress.c:342-410 | for at least two and at most 2^max symbols: the limited depths of the tree, handed out by falling count, depths of at most max, one of full length, for exactly the symbols that occur; a complete canonical code if and only if the debt fits into 32 bits, overfull otherwise, and always complete for a total below 5,702,887 |
| HufStats.ReadWeights | src/repo/fse/entropy_common.c:201-231 | accepts exactly the weights a complete code leaves when its last one is dropped, and gives that code back |
| HufStats.HeaderImplies | src/repo/fse/huf_compress.c:146-151 | the weights written for a code imply the last one, unless one of them is twelve |
| HufStats.ReadTableX2 | src/repo/fse/huf_decompress.c:80-135 | a single-symbol table of the weights |
| HufStats.RoundTrip | src/repo/fse/huf_compress.c:546-549 | for a total below 5,702,887, from counts to a code, from a text to a stream and back through the written weights; refused exactly when a written weight is twelve, and then only with a limit of twelve bits |
| Lz4Format.CopyMatchUnique | src/repo/lz4-r101/lz4.c:658-693 | a match copy is the only extension that repeats itself at the distance |
| Lz4Format.SequenceSize | src/repo/lz4-r101/lz4.c:432-490 | a sequence is at most 256/255 as long as its text |
| Lz4Copy.SpreadMultiple | src/repo/lz4-r101/lz4.c:590-593 | repetition at a distance is repetition at its multiples |
| Lz4Copy.Widened | src/repo/lz4-r101/lz4.c:590-593 | each adjusted distance is a multiple of the distance and at least the word copied |
| Lz4Copy.WildCopy | src/repo/lz4-r101/lz4.c:255-255 | copies between buffers are right up to the end asked for |
| Lz4Copy.CopySequence | src/repo/lz4-r101/lz4.c:658-693 | refused exactly near the end of the buffer; otherwise a byte-at-a-time copy, for every distance |
| Lz4Compress.PutPosition | src/repo/lz4-r101/lz4.c:344-359 | positions are never truncated by the table's entries, and the table has the latest position for each hash |
| Lz4Compress.FindMatch | src/repo/lz4-r101/lz4.c:409-428 | the first hit among its probes: 61 at consecutive positions, then at distances that grow by one every 64, each compared with the latest position recorded for its hash; or all of them miss |
| Lz4Compress.CatchUp | src/repo/lz4-r101/lz4.c:430-430 | extends the match backwards as far as it goes |
| Lz4Compress.CountMatch | src/repo/lz4-r101/lz4.c:453-466 | words, then four, two and one byte: the longest match that leaves five bytes |
| Lz4Compress.EncodeMatch | src/repo/lz4-r101/lz4.c:449-480 | the bytes of one sequence |
| Lz4Compress.Extend | src/repo/lz4-r101/lz4.c:432-490 | one more sequence stands for the text up to its end, and the size bound is kept |
| Lz4Compress.EncodeSequences | src/repo/lz4-r101/lz4.c:402-495 | the main loop leaves everything before the last literals encoded, by the greedy sequences |
| Lz4Compress.CompressGeneric | src/repo/lz4-r101/lz4.c:374-509 | refuses exactly large inputs with 16-bit entries; otherwise, as long as the bound is an int, a block of the input of at most the bound |
| Lz4Compress.Compress | src/repo/lz4-r101/lz4.c:512-530 | for every input whose bound is an int, a block of at most n + n/255 + 16 bytes, made of the greedy sequences: every first hit is taken, as wide as it goes in both directions, and behind the last one every probe misses |
| Lz4Greedy.GreedyUnique | src/repo/lz4-r101/lz4.c:402-495 | an input has only one such list of sequences |
| Lz4Greedy.HashIs | src/repo/lz4-r101/lz4.c:334-340 | the hash is the highest bits of a 32-bit product |
| Lz4Decompress.StepBack | src/repo/lz4-r101/lz4.c:605-656 | a sequence of a block is read back |
| Lz4Decompress.ParseBlock | src/repo/lz4-r101/lz4.c:602-697 | a block is parsed into the sequences it was made of; none is taken for the last one |
| Lz4Decompress.ReadRunLength | src/repo/lz4-r101/lz4.c:608-618 | literal lengths |
| Lz4Decompress.ReadMatchLength | src/repo/lz4-r101/lz4.c:646-656 | match lengths, which leave room for the last literals |
| Lz4Decompress.DecodeStep | src/repo/lz4-r101/lz4.c:602-693 | one turn of the main loop does what one step of the parser says |
| Lz4Decompress.Decompress | src/repo/lz4-r101/lz4.c:568-697 | the parser's verdict, with the error position or the text of the sequences, on any input but an empty one for an output that is not empty; the verdict itself is the next row |
| Lz4Verdict.Verdict | src/repo/lz4-r101/lz4.c:568-697 | an input is accepted exactly if it spells sequences and last literals, up to its end, for which the output has room; and then these are found |
| Lz4Verdict.SpelledOnce | src/repo/lz4-r101/lz4.c:602-697 | whatever the room, an input spells only one list |
| Lz4Verdict.RoomDecides | src/repo/lz4-r101/lz4.c:633-633 | a block is accepted if and only if its text has room |
| Lz4Verdict.Answered | src/repo/lz4-r101/lz4.c:685-697 | the return value is negative exactly if nothing is spelled that has room, and otherwise the length of the text |
| Lz4Verdict.Refusal | src/repo/lz4-r101/lz4.c:694-697 | an error says how far the input was read: some sequences that have room, and behind them a length, an offset or a match that cannot be taken |
| Lz4Decompress.RoundTrip | src/repo/lz4-r101/lz4.c:700-703 | compressing and decompressing any input whose bound is an int returns it |
| BtreeSearch.FindLower | src/stx/btree.h:1391-1418 | the lower bound, whatever position an earlier search left behind |
| BtreeSearch.FindUpper | src/stx/btree.h:5023-5065 | the first key above, in spite of both bounds stepping past the probe |
| BtreeItems.InsertSorted | src/stx/btree.h:5549-5595 | list insertion keeps the order and adds exactly the new pair |
| BtreeItems.RemoveSorted | src/stx/btree.h:5930-5951 | list removal keeps the order and takes exactly the pair away |
| BtreeTree.Locate | src/stx/btree.h:5604-5624 | descending at the lower bound of the separators leads to the only child that can hold the key |
| BtreeInsert.InsertCorrect | src/stx/btree.h:5604-5762 | insertion is list insertion; one valid tree results, or two halves, each at least half full, with the separator between |
| BtreeInsert.LeafHalves | src/stx/btree.h:5766-5812 | a full leaf is split in the middle, an odd pair going right, before the new pair goes where it belongs |
| BtreeInsert.NodeHalves | src/stx/btree.h:5819-5862 | a full inner node is split so that both halves get as many separators, an odd one staying where the new one is |
| BtreeInsert.SplitThenLeft | src/stx/btree.h:5628-5703 | splitting and inserting left is cutting the widened node |
| BtreeInsert.SplitThenRight | src/stx/btree.h:5628-5703 | splitting and inserting right is, too |
| BtreeInsert.SplitThenBetween | src/stx/btree.h:5648-5672 | and so is the case where the new key becomes the split key |
| BtreeErase.MergeCorrect | src/stx/btree.h:6617-6709 | merging keeps the pairs and gives a node that is neither short nor too full |
| BtreeErase.ShiftLeftCorrect | src/stx/btree.h:6714-6843 | shifting left keeps the pairs, fills both nodes and gives the exact separator |
| BtreeErase.ShiftRightCorrect | src/stx/btree.h:6848-6977 | and so does shifting right |
| BtreeErase.ShiftsEven | src/stx/btree.h:6714-6977 | after a shift the two differ by at most one, the giver not being smaller |
| BtreeErase.ChoiceIsLocal | src/stx/btree.h:6094-6135 | whatever the cousins are, the repair only involves a neighbour under the same parent, and one that can give or take |
| BtreeErase.ChoiceIs | src/stx/btree.h:6094-6135 | exactly: if a neighbour under the same parent can give, the fuller one does, the right one in a tie; otherwise the child is merged, with the left one if there is one |
| BtreeErase.RebalanceCorrect | src/stx/btree.h:6239-6295 | every repair keeps the pairs and leaves every child full enough |
| BtreeErase.EraseCorrect | src/stx/btree.h:6011-6300 | erasure is list removal, keeps separators and depth, and only the node itself may be one short |
| BtreeHeap.ChainInsert | src/stx/btree.h:5782-5802 | a new leaf behind another keeps the links |
| BtreeHeap.ChainRemove | src/stx/btree.h:6643-6650 | a leaf merged into the one before it leaves the links |
| BtreeInsertPages.InsertIds | src/stx/btree.h:5604-5862 | an insertion keeps every page and takes exactly the new ones |
| BtreeInsertPages.LastPut | src/stx/btree.h:5747-5757 | the correction of the split key is never needed |
| BtreeErasePages.EraseIds | src/stx/btree.h:6011-6300 | an erasure takes no new page |
| BtreeErasePages.ReplacePages | src/stx/btree.h:6714-6977 | after a shift the pages hold the balanced nodes |
| BtreeErasePages.RemovePages | src/stx/btree.h:6209-6237 | taking the emptied child out completes a merge |
| BtreeStore.Btree.SplitSurface | src/stx/btree.h:5766-5812 | two pages with the halves, linked in order |
| BtreeStore.Btree.InsertSplit | src/stx/btree.h:5628-5703 | all three branches give the cut of the widened page |
| BtreeStore.Btree.InsertBelow | src/stx/btree.h:5604-5762 | the pages hold the result, nothing else changed, and the leaves are linked in order |
| BtreeStore.Btree.Insert | src/stx/btree.h:5549-5595 | keeps everything the tree verifies, the contents become the list insertion, and the position returned holds the key |
| BtreeStore.Btree.FixUnderflow | src/stx/btree.h:6071-6135 | the repair chosen from addresses and page sizes is the one of the specification |
| BtreeStore.Btree.EraseChild | src/stx/btree.h:6019-6136 | separator, repair and links of one level |
| BtreeStore.Btree.EraseInside | src/stx/btree.h:6141-6237 | the pages hold the result, and the leaves are linked in order |
| BtreeStore.Btree.Erase | src/stx/btree.h:5930-5951 | keeps everything the tree verifies, and the contents become the list removal; or nothing changes |
| BtreeCursor.LeafPages | src/stx/btree.h:7177-7213 | the linked leaves spell out the tree in order |
| BtreeCursor.BoundChild | src/stx/btree.h:5293-5299 | before the child at either bound every key is passed, behind it none |
| BtreeCursor.PositionUnique | src/stx/btree.h:3301-3332 | a place in the list determines the iterator |
| BtreeStore.Btree.Seek | src/stx/btree.h:5280-5306 | lands on the first pair with a key from the probe on |
| BtreeStore.Btree.SeekAbove | src/stx/btree.h:5332-5353 | lands on the first pair with a key above the probe, by comparisons of keys alone |
| BtreeStore.Btree.Lookup | src/stx/btree.h:5202-5221 | finds exactly the keys that are there, with their value |
| BtreeStore.Btree.Step | src/stx/btree.h:3301-3332 | one place further in the flat list, or the end |
| BtreeStore.Btree.Advance | src/stx/btree.h:2857-2897 | as many places further, clamped at the end |
| BtreeStore.Btree.StepTimes | src/stx/btree.h:3248-3254 | the same place by single steps, clamped at the end |
| BtreeStore.Btree.Count | src/stx/btree.h:3276-3298 | the number of pairs between two iterators |
| BtreeStore.Btree.AdvanceIsSteps | src/stx/btree.h:2857-2897 | it += n and n times ++it are the same iterator, and count(it, it + n) is n unless the end comes before |
| BtreeSurface.RoomLeft | src/stx/btree.h:1735-1752 | while a position has no slot, a slot is free |
| BtreeSurface.SlotsDiffer | src/stx/btree.h:1720-1731 | different positions use different slots |
| BtreeSurface.Surface.InitKeyAllocation | src/stx/btree.h:1735-1752 | the entries in use stay exactly the slots given out, each once |
| BtreeSurface.Surface.Put | src/stx/btree.h:1923-1934 | writing a pair changes one position |
| BtreeSurface.Surface.Insert | src/stx/btree.h:1974-1990 | the logical sequence changes by list insertion |
| BtreeSurface.Surface.EraseAt | src/stx/btree.h:2004-2024 | it changes by list removal, and the slot is kept for later |
| BtreeSurface.Surface.SplitInto | src/stx/btree.h:5794-5799 | the two pages hold take and drop of the old sequence |
| BtreeSurface.Surface.MergeFrom | src/stx/btree.h:6636-6641 | the left page holds the concatenation and the right one is empty |
| BtreeSurface.Surface.ShiftFrom | src/stx/btree.h:6743-6757 | the left page gets the first part of the right one |
| BtreeSurface.Surface.ShiftTo | src/stx/btree.h:6891-6904 | the right page gets the last part of the left one |
| BtreeLeaves.CellsAreLists | src/stx/btree.h:5794-5799 | what the tree does to its leaf pages is what it does to their lists, and pages with slots have room for it |
| BtreeLeaves.ExchangePages | src/stx/btree.h:6636-6641 | splitting, merging and both shifts: two slot pages hold the new halves |
| BtreeLeaves.LeafPages.Put | src/stx/btree.h:1974-1990 | insertion into one slot page; every other page keeps its list |
| BtreeLeaves.LeafPages.Drop | src/stx/btree.h:2004-2024 | removal from one slot page; every other page keeps its list |
| BtreeLeaves.LeafPages.Move | src/stx/btree.h:6636-6904 | pairs move between two slot pages; every other page keeps its list |
| BtreeLeaves.LeafPages.Perform | src/stx/btree.h:5766-5812 | one step of the tree on the slot pages |
| BtreeLeaves.LeafPages.Run | src/stx/btree.h:5549-5595 | over every run of steps the slot pages hold the lists of the tree |

## Left out

- FseHeader.ReadNCount: for inputs whose last byte belongs to the header only safety and the total are stated, because the window then stops a byte short; a block always has a stream behind its header.
- FseNormalize.NormalizeCount: sources of 2^32 symbols and more, whose counts the code casts to 32 bits, are not modelled.
- FseTable.BuildCTable: what the code builds from a wrong total that its closing test accepts is not modelled, because it reads or writes cells it never laid out; `Unsound` stands for it. The same holds for `FseTable.BuildDTable`.
- FseHeader.WriteNCount: the model stops where the writer would read past the norms (`Overread`) or write past the buffer (`Overrun`).
- FseStream.CompressUsingCTable: the model stops where an unchecked flush would leave the destination; what is overwritten then is not modelled.
- FSE tables for raw and single-symbol blocks, 16-bit symbols, and the parallel histogram.
- HufHeight.SetMaxHeight: depths of more than max + 31, whose shift C leaves undefined, are not modelled; they need a total of at least the Fibonacci number of max + 34.
- HufBuild.BuildCTable: totals from the Fibonacci number of max + 34 on are not modelled, for the same reason, nor are those from 2^30 on, which reach the barriers of the tree.
- HufStats.RoundTrip: totals from 5,702,887 on, with which the code need not be complete, are left out; `HUF_compress` refuses blocks of more than 131,072 symbols.
- HufStats.ReadWeights: the two encodings of the weights in the header are not modelled; it starts from the weights.
- The four-stream Huffman format, the stream decoder around the double-symbol table with its special last symbol, decoder selection and table reuse.
- HufDouble.ReadTableX4: the rank values of the second level are kept as rows of a sequence instead of a fixed two-dimensional buffer.
- Lz4Compress.CommonBytes: stands for a count of trailing zeros of the difference of two words.
- LZ4 with limited output, with a prefix, with partial decoding or ending on the output size.
- Lz4Decompress.Decompress: for a zero offset, which copies bytes onto themselves, only the verdict and the length are stated.
- BtreeStore.Btree: keys and values are whole numbers; the tree keeps a leaf page as its list of pairs, updated by the steps that `BtreeLeaves.LeafPages` performs on slot pages; inner pages are sequences, so their shift loops are not modelled; `next` and `preceding` are kept as maps by address.
- BtreeStore.Btree.EraseInside: takes the emptied child out before the parent is told about a new last key; the source does the two independent steps in the other order.
- B+ tree page persistence, reference counts, low-memory handling, duplicate keys, erasing by iterator, retreating and reverse iterators.
- `zlibh.c`, command line tools, benchmarks and configuration.
