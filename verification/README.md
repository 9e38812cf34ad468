# Verified models of the offloading runtime and its zlib

A device runtime that offloads calls and shares memory between machines, and the compression
library it carries. Seven parts are modelled, in Dafny, with the properties they exist for.

* **deflate** (`lz77.dfy`, `hash_chains.dfy`, `match_search.dfy`, `deflate.dfy`, `deflate_runs.dfy`,
  `deflate_gap.dfy`, `words.dfy`): the sliding window, the hash chains with the circular `prev` table,
  the match search, the five compression functions, and `deflate()` with its flushes, restartable at
  every call. What is tallied and stored decodes to the input by the copy rule of section 3.2.3 of
  RFC 1951, however input and output space are dealt out.
* **CRC-32** (`gf2.dfy`, `crc32.dfy`, `crc32_laws.dfy`, `crc32_combine.dfy`): the table-driven little-
  and big-endian forms and the GF(2)-matrix combination against the bitwise definition of section 8 of
  RFC 1952, and what that definition detects.
* **Adler-32** (`adler32.dfy`): deferred reduction in 32 bits, the division-free reductions and the
  combination against the two sums of section 9 of RFC 1950.
* **Shared memory** (`store_logs.dfy`, `shared_memory.dfy`, `lazy_release.dfy`, `access_history.dfy`,
  `home_server.dfy`, `uva_client.dfy`): home-based lazy release consistency as a state machine over all interleavings of
  stores, faults, allocations and syncs; and the home's and the client's handlers as classes proved
  against the functions the state machine is made of: a sync or a fault between the two objects is a
  run of the state machine's events. Which copies a sync takes away is decided by the history of the
  run alone.
* **Heap** (`chunks.dfy`, `heap_lists.dfy`, `heap_layout.dfy`, `heap_steps.dfy`, `heap_growth.dfy`,
  `xmemory.dfy`, `heap_bytes.dfy`, `heap_runs.dfy`): the boundary-tag allocator with its slab table and sixteen doubly
  linked free lists. Headers live in a memory that the class changes field by field; the value of the
  class and its well-formedness are functions and predicates of a datatype.
* **Page set and job ring** (`page_set.dfy`, `job_queue.dfy`): the two-level bitmap against a set,
  the ring against a bounded queue under every interleaving of single reads and writes.
* **Remote calls** (`selector.dfy`, `marshalling.dfy`, `remote_calls.dfy`, `remote_call_steps.dfy`,
  `remote_call_runs.dfy`, `remote_call_progress.dfy`, `remote_call_returns.dfy`): the compiler of driver
  selectors and the meaning of its output, the argument layout agreed between the two generated
  programs, and the job-id protocol, in which no value is mistaken for another and no call is lost.

`dafny verify dfyconfig.toml` checks everything.

## How the parts are modelled

*deflate.* `stream` is all input taken so far and `base` where the window begins in it; every
invariant is about these two. Positions after a slide can leave `match_start` one window below the
stream, so it is kept modulo 2^32 as the source keeps it. The chain budget wraps around from 0 in the
same way. What a coded block costs in output bytes is arbitrary, since the tree coder is not part of
this model: every schedule of output space is thereby covered. A block carries the tokens and, while
they are in the window, the raw bytes; the coder may choose either form, and all choices inflate to
the same bytes. `marks` records, byte by byte, which window bytes no input, no zeroing and no copy of
an assigned byte has reached.

*Shared memory.* A client's pending stores are what it has stored since its last sync was served.
The instrumentation logs a store just before the instruction performs it (`lib/UVA/MemoryManager.cpp:1203`),
so logging and storing are two steps with a possible fault between them. The home computes the
invalidation list before it applies the log. `SharedMemory.After` is the transition function;
`LazyRelease.IsRun` is a run of it from nothing.

*Heap.* A list is described by when its chunks were put on it: each chunk links to the next older one.
`Heap.Wf` is: the chunks tile the heap, `prev_size` is the left neighbour's size, `lastChunk` is
topmost, exactly the free chunks are listed, a slab list holds one size only, no two free neighbours.

*Remote calls.* Every locked access to a table or list, every send and every receipt is a step of its
own. What lies between the devices is an assumption, as no file of the device runtime shows it: a
relay that renumbers the calls it forwards and restores the caller's id on the way back, over reliable
channels that may reorder.

*Page set.* Iteration is what `begin` and `next` yield one after the other. `Exact` says that they
yield every page once, in ascending order, and then the end; `Iterable` is a simpler condition that
runs of clear and insert keep and that implies it.

Where the code does less than its comments or its users suggest, the exact condition is proved:

* The job ring never initialises its slots: it is a queue exactly when the memory it gets is null
  (`JobQueues.QueueIffNull`).
* Erasing a page unmarks its whole 32-page word. Iteration stays exact if and only if the least page
  is not erased under another address than its own, and either the word is emptied or the least
  remaining page lies in it (`PageSets.PageSet.Erase`, with a run that loses a page,
  `PageSets.EraseLosesPage`, and one that does not although its word stays unmarked,
  `PageSets.EraseStaysExact`). Inserting keeps it exact if and only if the page is not page 0 and does
  not go before a least page whose word is unmarked (`PageSets.PageSet.Insert`,
  `PageSets.InsertLosesPages`).
* The match search may compare a window byte that was never assigned. A slide with `high_water` short
  of the window's end copies such bytes down, and the zeroing goes by `high_water` alone. The gap is
  `high_water - w_size` to `w_size` and lasts until the input has passed it (`Extent.Filled` in
  `Deflate.Deflater.FillWindow`). A search reads in it if and only if the length to beat ends at the gap
  or behind it, or one of the candidates it visits agrees with the current string all the way to the
  gap (`MeetsGap` in `Deflate.Deflater.LongestMatch`); a run search, if and only if the run goes on to
  the gap (`RunMeetsGap` in `Deflate.Deflater.FindRun`). Which candidates are visited and which indices
  are read are functions of the state before the search. Two calls of `deflate()` that meet the gap are
  `DeflateGap.GapIsRead`. No index leaves the window, and the length returned does not depend on those
  bytes: meeting one takes a match of the whole lookahead.
* Growing the heap behind a live last chunk leaves `lastChunk` behind exactly when the fresh run has
  no rest to cut off, and stops the program when the free last chunk is not on the list its size has
  now (`XMemory.MemoryManager.Allocate`). Both happen on short runs from the empty heap
  (`HeapRuns.UnsettledRun`, `HeapRuns.MisfiledRun`).
* An argument list arrives unchanged if and only if all its addresses are below 2^32
  (`Marshalling.Transfer`).
* MOD28 is the remainder exactly up to 4368 * 65536 + 65521, a little above its 28 bits
  (`Adler32.Mod28BoundIsTight`).

## Model

| member | source | states |
|---|---|---|
| Lz77.CopyRepeats | tools/zlib/deflate.c:1356-1378 | copying from a prefix rebuilds the next bytes exactly when they repeat those `dist` earlier, overlap included (section 3.2.3 of RFC 1951) |
| Lz77.AppendLiteral | tools/zlib/deflate.h:323-329 | a tallied literal extends the decoded input by its next byte |
| Lz77.AppendMatch | tools/zlib/deflate.h:330-339 | a tallied pair whose bytes repeat extends the decoded input by its whole length |
| Lz77.DecodedLengths | tools/zlib/deflate.h:323-339 | what decodes has only lengths from 3 to 258, which section 3.2.5 of RFC 1951 has codes for |
| Lz77.BlocksInflate | tools/zlib/deflate.c:1538-1547 | blocks that cover the input piece by piece inflate to it whichever allowed form (stored or coded) is chosen for each |
| HashChains.HashParams.ShiftIsRoundedThird | tools/zlib/deflate.c:291-291 | hash_shift is a third of hash_bits, rounded up |
| HashChains.ReadyStep | tools/zlib/deflate.c:167-167 | the rolling register forgets the fourth byte back: after three updates it is the hash of just the last three bytes |
| HashChains.ThirdByteForced | tools/zlib/deflate.c:1214-1223 | with at least 8 hash bits, equal hashes of strings with equal first two bytes force the third byte equal |
| HashChains.InsertKeeps | tools/zlib/deflate.c:186-189 | INSERT_STRING keeps every chain: each reachable entry is an earlier position with the same hash, though `prev` slots are reused modulo the window size |
| HashChains.SlideKeeps | tools/zlib/deflate.c:1426-1449 | moving all entries down by the window size, or to NIL, keeps every chain |
| HashChains.WalkStep | tools/zlib/deflate.c:1284-1285 | one step along `prev` above the limit reaches a strictly smaller position with the same hash, so walks end without the budget |
| MatchSearch.ThirdByteAgrees | tools/zlib/deflate.c:1247-1254 | in the window, a candidate on the chain agreeing in bytes 0 and 1 agrees in byte 2 |
| MatchSearch.AgreesRepeats | tools/zlib/deflate.c:1273-1276 | window bytes agree over a length exactly when the input repeats over it |
| Deflate.Deflater.InsertString | tools/zlib/deflate.c:186-189 | the new front of the chain and the old front in the slot of `prev`, nothing else changed |
| Deflate.Deflater.Insert | tools/zlib/deflate.c:186-189 | on a well-formed dictionary: returns the old front of the string's own chain, an earlier position with the same key; the string is the new front; the dictionary stays well-formed |
| Deflate.Deflater.Slide | tools/zlib/deflate.c:1419-1451 | the upper half moves down, never-assigned bytes with it, the tables follow, and window and dictionary still describe the same input |
| Deflate.Deflater.ReadBuf | tools/zlib/deflate.c:1076-1101 | input moves from the caller into the window: no byte lost, reordered or duplicated |
| Deflate.Deflater.Reinsert | tools/zlib/deflate.c:1470-1489 | strings left over from the last call enter the dictionary as soon as three bytes are there: exactly these positions are inserted |
| Deflate.Deflater.ZeroTail | tools/zlib/deflate.c:1496-1528 | high_water rises to MAX_MATCH past the input or to the window's end; everything below it is then assigned but for the gap a slide has left |
| Deflate.Deflater.FillWindow | tools/zlib/deflate.c:1390-1532 | window, dictionary and output still describe the input; there is lookahead enough unless the input is used up; exactly the leftover strings that now have three bytes are inserted; where the window then begins, the input ends, high_water stands and the unassigned gap begins |
| Deflate.Deflater.ScanMatch | tools/zlib/deflate.c:1253-1269 | the eight-at-a-time scan stops at the first difference or at MAX_MATCH, for a length of at least 3, and reads exactly the indices up to there |
| Deflate.Deflater.TryCandidate | tools/zlib/deflate.c:1242-1269 | a candidate longer than the best is measured exactly; a rejected one is no longer than the best; the indices read are those of the comparisons up to the first that fails |
| Deflate.Deflater.WalkChain | tools/zlib/deflate.c:1195-1285 | every visited candidate is bounded by the best length; the walk goes on until the first of: budget spent, chain out of reach, a match nice enough |
| Deflate.Deflater.LongestMatch | tools/zlib/deflate.c:1148-1289 | at most the lookahead; above prev_length the input repeats at match_start for the length, within MAX_DIST; no candidate visited up to the first reason to stop is longer; exactly the indices named by the comparisons are read, none outside the window; a never-assigned byte is among them if and only if the length to beat ends at or behind the gap or a visited candidate agrees up to it, and then the result is the whole lookahead |
| Deflate.Deflater.TallyLit | tools/zlib/deflate.h:323-329 | appends a literal; blocks and tokens cover one more byte of the input; reports a full buffer |
| Deflate.Deflater.TallyDist | tools/zlib/deflate.h:330-339 | appends a pair of a distance within MAX_DIST; blocks and tokens cover its whole length more |
| Deflate.Deflater.FlushBlockOnly | tools/zlib/deflate.c:1538-1547 | closes the block at `strstart`, with exactly the open tokens and the raw bytes since `block_start` as its content and one more size on the ledger; all covered input is in blocks, no token is left open, none is lost or changed |
| Deflate.Deflater.FastFind | tools/zlib/deflate.c:1652-1667 | searches exactly when the chain's front is near enough, with no visited candidate longer; otherwise keeps the old length |
| Deflate.Deflater.FastEmit | tools/zlib/deflate.c:1652-1711 | exactly one token: the match found if it is long enough, else the literal at `strstart`; what is found is what a search of the window before the step finds, the nearest of the longest candidates in reach; exactly the strings passed are inserted |
| Deflate.Deflater.FastStep | tools/zlib/deflate.c:1635-1713 | one iteration: less input is left, or none and the loop is left, or the output space is used up; the token buffer and the window fill as stated |
| Deflate.Deflater.DeflateFast | tools/zlib/deflate.c:1628-1722 | from any state between calls to such a state: everything before `strstart` is decoded from blocks and tokens; on a flush nothing is left untallied; input that fits the window is all used up, with the window slid if it was full |
| Deflate.Deflater.DeflateSlow | tools/zlib/deflate.c:1730-1853 | the same with lazy matching: everything before `strstart`, less the one byte of `match_available`, is decoded |
| Deflate.Deflater.SlowFind | tools/zlib/deflate.c:1755-1786 | the last match becomes the previous one; searches exactly when that is not good enough and the front is near; short far or filtered matches are dropped |
| Deflate.Deflater.SlowEmit | tools/zlib/deflate.c:1790-1837 | the lazy decision: the previous match if the new one is not longer, else the literal kept back if there is one, else nothing; the new one is what a search of the window before the step finds, unless it is dropped as too far or filtered, and there is none when the previous one is good enough |
| Deflate.Deflater.SlowDecide | tools/zlib/deflate.c:1790-1837 | the decision itself, and that it uses up input unless the output space is used up |
| Deflate.Deflater.SlowMatch | tools/zlib/deflate.c:1790-1815 | the previous match is taken back to where it began; its bytes are decoded and exactly its strings up to the lookahead's end are inserted |
| Deflate.Deflater.DeflatePlain | tools/zlib/deflate.c:1861-1967 | the run-length and the Huffman-only function: everything before `strstart` is decoded from literals and distance-one pairs |
| Deflate.Deflater.FindRun | tools/zlib/deflate.c:1883-1900 | the run of the previous byte is measured exactly, up to MAX_MATCH and the lookahead; none if shorter than three; exactly the indices named by the comparisons are read, a never-assigned one if and only if the run goes on to the gap |
| Deflate.Deflater.PlainEmit | tools/zlib/deflate.c:1902-1917 | exactly one token: the run if there is one, else the literal at `strstart`; always the literal without run search |
| Deflate.Deflater.RleMatch | tools/zlib/deflate.c:1903-1910 | a run of the previous byte is tallied as a pair of distance one and decodes to the run |
| Deflate.Deflater.DeflateStored | tools/zlib/deflate.c:1564-1619 | `block_start` never goes below the window, each stored block is at most min(65535, pending_buf_size - 5) bytes, the blocks concatenate to the input taken |
| Deflate.Deflater.StoreAhead | tools/zlib/deflate.c:1593-1609 | all lookahead is taken, cut at the largest stored block, and flushed before a slide could reach `block_start`; each block closed holds exactly the bytes since the last one |
| Deflate.Deflater.constructor | tools/zlib/deflate.c:213-320 | a new stream satisfies every invariant, for every level, window, memory level and strategy; function, sizes, hash bits and the four search limits are those the level, the memory level and the strategy name; nothing taken, written or owed |
| Deflate.ConfigurationRows | tools/zlib/deflate.c:132-144 | the search limits of the ten levels, column by column; they meet the two conditions deflate() states |
| Deflate.HashBitsAre | tools/zlib/deflate.c:289-289 | the hash has memLevel + 7 bits |
| Deflate.RankOrder | tools/zlib/deflate.c:158-159 | the flushes in the order none, block, partial, sync, full, finish, all above that of a call that ran out of output space |
| Deflate.Deflater.RunFunc | tools/zlib/deflate.c:899-946 | one call of the level's function with the flush markers behind it keeps the stream and the blocks in agreement; the caller need come back only when the output space is used up or there is no more input; if it need not, all input is in finished blocks behind the marker the flush asks for, and no output is pending |
| Deflate.Deflater.Begin | tools/zlib/deflate.c:665-895 | which calls are refused or stuck, exactly; otherwise pending output is written first, and if the space is used up by it the next call may repeat the flush |
| Deflate.Deflater.EmptyBlock | tools/zlib/deflate.c:924-927 | adds exactly the flush's marker behind the blocks: an empty stored block, an empty coded one for Z_PARTIAL_FLUSH, none for Z_BLOCK; no input is lost |
| Deflate.Deflater.FlushMarker | tools/zlib/deflate.c:924-939 | behind the blocks exactly an empty coded block for a partial flush, an empty stored one for a sync or full flush, nothing else for Z_BLOCK; for a full flush an empty dictionary and an empty window; every invariant kept |
| Deflate.Deflater.ForgetHistory | tools/zlib/deflate.c:931-938 | all chains are empty, the window restarts where the input stands, and all that was output is unchanged |
| Deflate.Deflater.Deflate | tools/zlib/deflate.c:665-976 | progress: a call that returns Z_OK with output space to spare has taken all its input and keeps less than a minimal lookahead. Z_STREAM_ERROR, Z_BUF_ERROR and Z_STREAM_END are returned each exactly when stated, errors change nothing. No input is lost; every byte of the blocks is handed out or pending; the end is reported only when all input is in finished blocks and no output is pending; a flush that returns with space to spare leaves all input in finished blocks with its marker behind them, and a full one an empty dictionary; at levels 1 to 3 input that fits leaves the window as computed, and a run of one byte up to the gap makes a search meet it |
| Deflate.Deflater.InflateAll | tools/zlib/deflate.c:665-976 | between any two calls, inflating the blocks gives the input up to the current block, the tokens continue it up to the undecided byte, and after the end or a completed flush it is all the input; distances stay within MAX_DIST, level-0 blocks within min(65535, pending_buf_size - 5) |
| DeflateRuns.StateInflates | tools/zlib/deflate.c:665-976 | what has been written inflates to a beginning of the input fed in, to all of it when finished or flushed |
| DeflateRuns.Compress | tools/zlib/deflate.c:665-976 | any sequence of calls with any input pieces, output spaces and flush requests: the output inflates to a beginning of the input, and to exactly all of it after Z_STREAM_END or a completed flush; every byte of the blocks is handed out or pending; lengths are 3 to 258, distances at most 32768 - 262, forced stored blocks at most 65535 bytes |
| DeflateGap.SlideEarly | tools/zlib/deflate.c:1419-1421 | `deflate()` of 762 zero bytes with a sync flush, at level 1 with a 512-byte window and any output space: the slide leaves the gap 508 to 512, and no search has met a never-assigned byte |
| DeflateGap.GapIsRead | tools/zlib/deflate.c:1242-1265 | `deflate()` of 258 more zero bytes: a search of this call compares a byte never assigned |
| Crc32.FeedByteIsZeros | tools/zlib/crc32.c:107-113 | feeding a byte to the bitwise register is eight zero-bit steps of register xor byte |
| Crc32.FeedByteByTable | tools/zlib/crc32.c:200-200 | the one-table step equals eight bitwise steps |
| Crc32.FeedWordByTable | tools/zlib/crc32.c:241-243 | four lookups in tables 3 to 0 equal feeding four bytes |
| Crc32.PolynomialTerms | tools/zlib/crc32.c:96-105 | the exponent list gives the reflected polynomial 0xedb88320 |
| Crc32.MakeCrcTable | tools/zlib/crc32.c:90-138 | table k holds each byte's remainder followed by k zero bytes, tables 4 to 7 their byte swaps, for all 256 bytes |
| Crc32.LittleWord | tools/zlib/crc32.c:241-243 | DOLIT4 feeds exactly the four bytes of the word |
| Crc32.Crc32Little | tools/zlib/crc32.c:247-278 | equals the bitwise CRC (pinned down by Crc32Laws) for every buffer, length, starting alignment and starting value |
| Crc32.BigWord | tools/zlib/crc32.c:281-283 | DOBIG4 feeds the four bytes into the byte-swapped register |
| Crc32.Crc32Big | tools/zlib/crc32.c:287-319 | equals the bitwise CRC (pinned down by Crc32Laws) for every buffer, length, starting alignment and starting value |
| Crc32.Crc32Bytes | tools/zlib/crc32.c:227-235 | the byte-at-a-time form equals the bitwise CRC |
| Crc32.Crc32Of | tools/zlib/crc32.c:204-236 | the same result on every machine; 0 for no buffer |
| Crc32.FeedConcat | tools/zlib/crc32.c:204-236 | continuing over a second buffer is feeding the concatenation |
| Crc32Laws.Conditioned | tools/zlib/crc32.c:227-235 | the register starts from the complement of the checksum so far and is complemented at the end |
| Crc32Laws.NothingFed | tools/zlib/crc32.c:204-236 | no bytes leave the checksum alone |
| Crc32Laws.LeadingZeroCounts | tools/zlib/crc32.c:204-236 | a zero byte in front of any message changes its checksum |
| Crc32Laws.ZeroFed | tools/zlib/crc32.c:204-236 | the checksum of one zero byte is 0xd202ef8d |
| Crc32Laws.Residue | tools/zlib/crc32.c:204-236 | a message followed by its checksum, lowest byte first, has the checksum 0x2144df1c, whatever the message and the start |
| Crc32Laws.BurstDetected | tools/zlib/crc32.c:204-236 | changing up to four consecutive bytes anywhere in a message changes its checksum |
| Crc32Combine.TimesIsZeros | tools/zlib/crc32.c:327-341 | a matrix that represents n zero bits, times a register, is n zero-bit steps of it |
| Crc32Combine.MatrixTimes | tools/zlib/crc32.c:327-341 | the bit-by-bit loop is the matrix product |
| Crc32Combine.MatrixSquare | tools/zlib/crc32.c:344-352 | squaring is composition: from the operator of n zero bits to that of 2n |
| Crc32Combine.OneZeroBit | tools/zlib/crc32.c:369-375 | the starting matrix is the operator of one zero bit |
| Crc32Combine.Combine | tools/zlib/crc32.c:355-408 | the alternating loop applies exactly 8 times the length zero bits, and leaves the first checksum for lengths not positive |
| Crc32Combine.CombineIsConcatenation | tools/zlib/crc32.c:355-408 | zero bits for the second length, then the second checksum, is the checksum of the concatenation |
| Crc32Combine.CombinePieces | tools/zlib/crc32.c:355-408 | combining the checksums of any two pieces gives that of the concatenation |
| Adler32.AddBytesIsSums | tools/zlib/adler32.c:18-22 | byte-wise reduction agrees with the unreduced plain and weighted sums |
| Adler32.ModIsRemainder | tools/zlib/adler32.c:40-44 | the shift-based MOD is the remainder on all 32-bit values |
| Adler32.Mod28IsRemainder | tools/zlib/adler32.c:35-39 | the shift-based MOD28 is the remainder below 4368 * 65536 + 65522 |
| Adler32.Mod28BoundIsTight | tools/zlib/adler32.c:35-39 | that is the first value for which it is not: all values up to a are right if and only if a is below it |
| Adler32.Mod63IsRemainder | tools/zlib/adler32.c:45-57 | the shift-based MOD63 is the remainder on all nonnegative 63-bit values |
| Adler32.NmaxFits | tools/zlib/adler32.c:14-16 | NMAX bytes from reduced sums stay below 2^32 |
| Adler32.NmaxIsLargest | tools/zlib/adler32.c:14-16 | the second sum of n bytes fits 32 bits from all valid sums and for all bytes if and only if n is at most NMAX |
| Adler32.OneByte | tools/zlib/adler32.c:77-86 | two conditional subtractions are exact for one byte |
| Adler32.ShortRun | tools/zlib/adler32.c:92-102 | one subtraction suffices for the first sum of fewer than 16 bytes, MOD28 for the second |
| Adler32.LongRun | tools/zlib/adler32.c:104-133 | the deferred modulo equals byte-wise reduction, without overflow in 32 bits |
| Adler32.Adler32Of | tools/zlib/adler32.c:65-133 | for every buffer and valid starting value the low half is the sum of the bytes and the high half their sum weighted by position, both modulo 65521; 1 for no buffer |
| Adler32.Combine | tools/zlib/adler32.c:136-162 | computes the combination formula with its bounded subtractions sufficient; the invalid checksum for a negative length |
| Adler32.CombinedIsConcatenation | tools/zlib/adler32.c:136-162 | the formula gives the sums of the concatenation |
| Adler32.CombinePieces | tools/zlib/adler32.c:136-162 | combining the checksums of any two pieces gives that of the concatenation |
| StoreLogs.ParseSerialize | tools/uva/server.cpp:309-364 | parsing a serialised log gives the same entries in order and uses up exactly its bytes |
| StoreLogs.ParseMessageOf | tools/uva/uva_manager.cpp:369-391 | the home reads from a sync request exactly the log the client wrote |
| StoreLogs.EntryLayout | tools/uva/uva_manager.cpp:374-383 | an entry on the wire: its size, its bytes, its address |
| StoreLogs.LowestFirst | tools/uva/uva_manager.cpp:374-383 | a word on the wire: its bytes, lowest first |
| StoreLogs.OverlayUntouched | tools/uva/server.cpp:319-319 | stores to other pages leave a page alone |
| SharedMemory.ApplyLogEffect | tools/uva/server.cpp:309-364 | after a log each page is overlaid with its entries; touched pages have the writer as only accessor, the others their old access set |
| SharedMemory.EventMoves | tools/uva/server.cpp:259-460 | every event leaves each home page unchanged with no new accessor but its client, or makes its client the only accessor |
| SharedMemory.OthersKept | tools/uva/server.cpp:344-364 | whatever one client makes the home do, what holds of every other client still holds |
| SharedMemory.WriteStoreKept | tools/uva/uva_manager.cpp:553-597 | performing a logged store keeps the copy equal to the home overlaid with the pending log |
| SharedMemory.FaultServeKept | tools/uva/server.cpp:725-747 | serving a fault: the content under way is the home's page, the client is added to its access set, and no other access set changes |
| SharedMemory.FaultInstallKept | tools/uva/client.cpp:244-255 | an installed page needs no overlay although a store to it is already logged |
| SharedMemory.SyncSendKept | tools/uva/uva_manager.cpp:387-395 | sending and clearing the log changes no pending store |
| SharedMemory.SyncServeKept | tools/uva/server.cpp:259-399 | once a sync is served, the copies not on the list agree with the merged home |
| SharedMemory.AllocServeKept | tools/uva/server.cpp:401-460 | new pages are zero, the client's alone, and not yet among its copies |
| LazyRelease.InvKept | tools/uva/server.cpp:259-460 | coherence is kept by every step of any client: a valid copy of a page whose access set has the client equals the home's page overlaid with its pending log |
| LazyRelease.RunInv | tools/uva/server.cpp:259-460 | coherence in every reachable state of every run |
| LazyRelease.StoresConserved | tools/uva/uva_manager.cpp:347-437 | what a client has stored is, in order, what the home has performed for it and then what is pending: nothing lost, duplicated or reordered |
| LazyRelease.HomeIsMerged | tools/uva/server.cpp:309-364 | each home page is the zero page overlaid with all synced stores in the order of the syncs |
| LazyRelease.SyncAlwaysServed | tools/uva/server.cpp:259-399 | every request under way can be served, and its entries are exactly the client's stores the home has not performed yet |
| LazyRelease.AfterSync | tools/uva/uva_manager.cpp:397-424 | after a sync every page the client still holds equals the home as it stood when the sync was processed |
| LazyRelease.FreshAfterSync | tools/uva/server.cpp:274-286 | after a sync, every valid copy, and all content under way, was in the home in some state since, up to own later stores |
| LazyRelease.OverlayByte | tools/uva/server.cpp:319-319 | an overlaid byte is the last store covering it, or the byte underneath |
| LazyRelease.Freshness | tools/uva/uva_manager.cpp:418-424 | after a sync any byte a client reads is its own last later store or a value the home held at or after that sync, whatever other clients do |
| AccessHistory.AccessIff | tools/uva/server.cpp:309-460 | over a run: a client is in a page's access set exactly if it has fetched, been given or stored to the page, and no other client's store to it was performed since |
| AccessHistory.ListedIff | tools/uva/server.cpp:274-286 | over a run: a sync lists exactly the allocated pages for which that is not so |
| AccessHistory.CopyIff | tools/uva/uva_manager.cpp:397-424 | over a run: a client holds a copy exactly if it has installed the page and no invalidation list since then has had it |
| AccessHistory.SurvivesIff | tools/uva/uva_manager.cpp:347-437 | over a run: the copies a sync leaves are exactly those held before whose page no other client's performed store has touched since the client last fetched, was given or stored to it |
| AccessHistory.FetchedIsCurrent | tools/uva/server.cpp:725-752 | a fetched page is not on the client's next list unless another client's store to it was performed in between |
| HomeServer.Server.SyncHandler | tools/uva/server.cpp:259-399 | applies exactly the client's log, entry by entry up to its last byte; the reply lists a page if and only if the client was not in its access set before; every page touched becomes the client's alone, the access sets of the others stay |
| HomeServer.Server.ApplyOne | tools/uva/server.cpp:311-364 | performs one store: exactly its bytes change, and exactly its page gets the writer as only accessor |
| HomeServer.Server.HeapSegfaultHandler | tools/uva/server.cpp:725-752 | sends the page; its access set gains exactly the client, and nothing else changes |
| HomeServer.Server.HeapAllocHandler | tools/uva/server.cpp:401-460 | the pages of the new run are zero and the client's alone, no other page or access set changes |
| HomeServer.PushAddresses | tools/uva/server.cpp:375-384 | the reply lists every stale page by address, after their number |
| UvaClient.Manager.StoreHandler | tools/uva/uva_manager.cpp:553-597 | logs a store exactly when its address is in one of the two shared ranges, keeping the running size equal to the serialised length |
| UvaClient.HeapIsLogged | tools/uva/uva_manager.cpp:930-935 | the first of these ranges is exactly the addresses the allocator's heap can have |
| UvaClient.Manager.SyncRequestMessage | tools/uva/uva_manager.cpp:347-396 | fills the buffer of the running size exactly with the serialised log, which parses back to it, and clears the log |
| UvaClient.Manager.SyncInvalidate | tools/uva/uva_manager.cpp:398-424 | drops exactly the copies of the listed pages |
| UvaClient.Sync | tools/uva/uva_manager.cpp:347-437 | client and home together: the home performs the client's log, the client keeps exactly the copies in whose access set it was; with any other clients, exactly the state machine's send, serve and completion of a sync |
| UvaClient.Fault | tools/uva/client.cpp:244-255 | a page fault between the two: the client gets the home's page, and the page's access set gains exactly the client; with any other clients, exactly the state machine's three fault events |
| Chunks.First | tools/uva/mm.cpp:634-643 | the first slab slot with the value, else the residue slot |
| Chunks.Aligned | tools/uva/mm.h:14-15 | rounding up is tight and even |
| HeapLists.PushChained | tools/uva/mm.cpp:737-763 | inserting keeps every doubly linked list well-linked and in order, and no size changes |
| HeapLists.UnlinkChained | tools/uva/mm.cpp:706-735 | removing from any place of a list keeps every list well-linked and in order |
| HeapLayout.PushKeeps | tools/uva/mm.cpp:737-763 | listing a chunk between unlisted neighbours gives a well-formed heap |
| HeapLayout.UnlinkKeeps | tools/uva/mm.cpp:706-735 | a chunk taken off its list has no listed neighbour, the rest stays well-formed |
| HeapLayout.JoinKeeps | tools/uva/mm.cpp:617-632 | merging two neighbours keeps the tiling, the recorded sizes and `lastChunk` right |
| HeapLayout.CutKeeps | tools/uva/mm.cpp:678-702 | cutting a chunk keeps the tiling, the recorded sizes and `lastChunk` right |
| HeapLayout.RegisterKeeps | tools/uva/mm.cpp:409-433 | a slab is only ever re-registered while its list is empty, so lists keep one size each |
| HeapSteps.TakenStep | tools/uva/mm.cpp:670-704 | taking a listed chunk: well-formed, one more live chunk of the asked size with less than a minimal chunk to spare |
| HeapGrowth.ExtendedStep | tools/uva/mm.cpp:591-596 | a fresh run joins a free last chunk and the heap stays well-formed |
| HeapGrowth.AppendedStep | tools/uva/mm.cpp:587-609 | a fresh run behind a live last chunk is a chunk with no free neighbour |
| HeapGrowth.TakenBehind | tools/uva/mm.cpp:587-590 | a lagging `lastChunk` catches up exactly when the fresh chunk is cut |
| XMemory.MemoryManager.constructor | tools/uva/mm.cpp:59-69 | the empty heap, which is well-formed |
| XMemory.MemoryManager.FindSlot | tools/uva/mm.cpp:634-643 | the table loops find the first slot with a value |
| XMemory.MemoryManager.RegisterSlab | tools/uva/mm.cpp:409-433 | an existing slab of the size leaves the table alone; else the first unused one gets the size; else, with none unused, the first with an empty list; else the table stays; a size of a page or more changes nothing |
| XMemory.RegisteredOrFull | tools/uva/mm.cpp:409-433 | afterwards some slab has the size if and only if one had it, was unused or had an empty list before |
| XMemory.MemoryManager.InsertToFreeList | tools/uva/mm.cpp:737-763 | header by header, the insertion whose effect HeapLists.PushChained states |
| XMemory.MemoryManager.RemoveFromFreeList | tools/uva/mm.cpp:706-735 | header by header, the removal whose effect HeapLists.UnlinkChained states |
| XMemory.MemoryManager.Coalesce | tools/uva/mm.cpp:617-632 | header by header, the merge whose effect HeapLayout.JoinKeeps states |
| XMemory.MemoryManager.FindChunk | tools/uva/mm.cpp:645-668 | the head of the size's slab if it has one, else the first fit on the residue list; nothing exactly when neither exists |
| XMemory.MemoryManager.UseChunk | tools/uva/mm.cpp:670-704 | unlinks, cuts off and lists the rest, marks the chunk in use |
| XMemory.MemoryManager.MergePrev | tools/uva/mm.cpp:207-213 | a free left neighbour is merged; afterwards the left neighbour is not free; live chunks untouched |
| XMemory.MemoryManager.MergeNext | tools/uva/mm.cpp:215-223 | the same on the right |
| XMemory.MemoryManager.GetMoreMemory | tools/uva/mm.cpp:582-615 | fails exactly on a misfiled last chunk; otherwise the heap grows by whole pages and is well-formed but for a lagging `lastChunk`; the whole new state |
| XMemory.MemoryManager.Free | tools/uva/mm.cpp:196-231 | the heap stays well-formed, exactly the freed chunk stops being live, no live chunk moves or changes size; the whole new state, after merging left and right; the slab table changes as the freed chunk's size registers, and the merged chunk is put in front of the first slab of its own size, or of the residue list |
| XMemory.MemoryManager.Allocate | tools/uva/mm.cpp:144-166 | a chunk of at least the requested size that was not live, all live chunks left alone; from the lists always well-formed without growth; after growth well-formed exactly when the run settles; the whole new state; the slab table changes as the request's size registers |
| HeapBytes.BytesTiled | tools/uva/chunk.h:54-61 | every byte of the heap lies in exactly one chunk |
| HeapBytes.Conserved | tools/uva/mm.cpp:144-231 | live and free bytes add up to the heap |
| HeapBytes.FreedBytes | tools/uva/mm.cpp:196-231 | freeing turns exactly the block's bytes into free ones |
| HeapBytes.AllocatedBytes | tools/uva/mm.cpp:144-166 | allocating turns exactly the block's bytes into live ones, growth adds whole pages |
| HeapBytes.BlockApart | tools/uva/mm.cpp:144-166 | no requested byte of a new block lies in a live block |
| HeapRuns.UnsettledRun | tools/uva/mm.cpp:587-590 | from the empty heap, two requests of 4056 bytes leave `lastChunk` below a live chunk |
| HeapRuns.MisfiledRun | tools/uva/mm.cpp:592-594 | from the empty heap, three requests and one release after which the next request stops the program in the list removal |
| BitVectors.AfterSet | tools/uva/pageset.cpp:27-27 | setting a bit changes exactly that bit |
| BitVectors.AfterReset | tools/uva/pageset.cpp:28-28 | clearing a bit changes exactly that bit |
| BitVectors.ZeroVector | tools/uva/pageset.cpp:178-184 | a vector is zero exactly when no bit is found in it |
| PageSets.InsertedTables | tools/uva/pageset.cpp:45-53 | both levels describe the set with the page, and stay complete if they were |
| PageSets.ErasedTables | tools/uva/pageset.cpp:74-81 | the first level describes the set without the page; the second is complete exactly when the word is empty and all others were marked |
| PageSets.ExactIff | tools/uva/pageset.cpp:116-173 | begin and next yield every page once in ascending order, and then the end, if and only if the recorded least page is the least and every page outside its word is in a marked one |
| PageSets.InsertedSeen | tools/uva/pageset.cpp:39-62 | from an exact state, exact after insertion if and only if the page is not page 0 and does not go before a least page in an unmarked word |
| PageSets.ErasedSeen | tools/uva/pageset.cpp:64-87 | from an exact state, exact after erasure if and only if the least page is kept on record and the word is emptied or holds the least remaining page |
| PageSets.PageSet.Clear | tools/uva/pageset.cpp:89-98 | the empty set, iterated over exactly |
| PageSets.PageSet.Insert | tools/uva/pageset.cpp:39-62 | exactly this page is added, the count is the size; exact iteration stays exact if and only if the page is not page 0 and does not go before a least page in an unmarked word |
| PageSets.PageSet.Erase | tools/uva/pageset.cpp:64-87 | exactly this page is removed, the count is the size; exact iteration stays exact if and only if the least page is kept on record and the word is emptied or holds the least remaining page |
| PageSets.PageSet.Contains | tools/uva/pageset.cpp:102-108 | membership, after any mix of clear, insert and erase |
| PageSets.PageSet.Size | tools/uva/pageset.cpp:110-112 | the number of pages, after any mix of clear, insert and erase |
| PageSets.PageSet.FindNonZeroIdx | tools/uva/pageset.cpp:178-184 | the first set bit from a place on, or none |
| PageSets.PageSet.FindNonZeroL2Entry | tools/uva/pageset.cpp:187-193 | the first nonzero second-level word from a place on, or none |
| PageSets.PageSet.Next | tools/uva/pageset.cpp:124-173 | the least later page that is in the same word or in a marked one, or the end if there is none; no internal check fails |
| PageSets.PageSet.Visit | tools/uva/pageset.cpp:116-173 | from any state, the sequence that begin and next yield; it is every page once, in ascending order, exactly in exact states |
| PageSets.EraseLosesPage | tools/uva/pageset.cpp:74-81 | after inserting pages 1, 32 and 33 and erasing 33, page 32 is in the set and iteration misses it |
| PageSets.EraseStaysExact | tools/uva/pageset.cpp:74-81 | after inserting pages 1, 2 and 3 and erasing 3, iteration is exact although the word is unmarked |
| PageSets.InsertLosesPages | tools/uva/pageset.cpp:45-53 | after inserting pages 32 to 34, erasing 34 and inserting 1, iteration misses a page |
| JobQueues.EndsOfQueue | tools/comm/comm_manager.cpp:30-46 | the slot at tail is taken exactly when all are, the one at head exactly when one is |
| JobQueues.StepRefines | tools/comm/comm_manager.cpp:30-57 | every single read or write of either thread is a step of a bounded queue |
| JobQueues.RingIsQueue | tools/comm/comm_manager.cpp:23-57 | under every interleaving jobs come out once and in order, refusal means full, an empty answer means nothing waits |
| JobQueues.QueueIffNull | tools/comm/comm_manager.cpp:23-28 | this holds of a new ring exactly when its memory is null |
| JobQueues.InsertsRun | tools/comm/comm_manager.cpp:30-41 | the run of insertions that reaches a slot that is not null |
| JobQueues.JobQueue.InsertJob | tools/comm/comm_manager.cpp:30-41 | appends the job exactly when the ring is not full |
| JobQueues.JobQueue.GetJob | tools/comm/comm_manager.cpp:43-57 | returns and removes the oldest job, null exactly when there is none |
| FcnPtrSelector.Selected | lib/Esperanto/FcnPtrSelector.cpp:143-221 | the first implementation in order all of whose nonempty conditions equal the arguments |
| FcnPtrSelector.WalkClosed | lib/Esperanto/FcnPtrSelector.cpp:206-219 | finishing an open block only continues the walks that ended there |
| FcnPtrSelector.AddComparison | lib/Esperanto/FcnPtrSelector.cpp:203-212 | one comparison block splits the arguments that reach it into those meeting the condition and the rest |
| FcnPtrSelector.ArgSize | lib/Esperanto/FcnPtrSelector.cpp:148-156 | the widest condition vector |
| FcnPtrSelector.MakeFcnPtrSelector | lib/Esperanto/FcnPtrSelector.cpp:143-221 | the block chain, run on any arguments, returns exactly the selected implementation, or null when none matches |
| Marshalling.CreateProduceFArgs | lib/Esperanto/RemoteCall.cpp:510-585 | one push per argument, of its allocation size or 4 for a pointer; the total is the layout's |
| Marshalling.CreateExecCase | lib/Esperanto/SwitchCase.cpp:170-221 | one load per argument, at the accumulated size of those before it |
| Marshalling.UnmarshalInverts | lib/Esperanto/SwitchCase.cpp:184-220 | the load of an argument finds exactly the bytes pushed for it, an address cut to 32 bits |
| Marshalling.ArgsLists.InsertArgsInfo | tools/esperanto/deviceRuntimeManager.cpp:63-83 | appends the pointer and size to the list of the call site, new or not |
| Marshalling.ArgsLists.GetArgsTotalSize | tools/esperanto/deviceRuntimeManager.cpp:85-93 | the number of bytes pushed |
| Marshalling.ArgsLists.GetArgsOfRC | tools/esperanto/deviceRuntimeManager.cpp:95-114 | all bytes the pointers lead to, in order; the list is empty again |
| Marshalling.ProduceArguments | tools/esperanto/esperanto_runtime.cpp:193-199 | the pushes of one call give the argument buffer of the announced size and leave the list empty |
| Marshalling.Transfer | lib/Esperanto/SwitchCase.cpp:170-221 | for any signature, what the receiver passes on is what the sender was given, addresses cut to 32 bits; it is unchanged if and only if all addresses are below 2^32 |
| Marshalling.LowestFirst | tools/esperanto/deviceRuntimeManager.cpp:95-114 | the four bytes sent for an address, lowest first, are worth its low 32 bits |
| RemoteCallSteps.StepKeeps | tools/esperanto/esperanto_runtime.cpp:128-364 | every locked access, send and receipt of any thread on any device keeps each call in exactly one place |
| RemoteCallSteps.FinishKeeps | tools/esperanto/esperanto_runtime.cpp:164-188 | the end of a function belongs to the one call its id is mapped to |
| RemoteCallSteps.GetSourceJobIDKeeps | tools/esperanto/esperanto_runtime.cpp:173-173 | the id read from the table is that of the call the function was executed for |
| RemoteCallSteps.SendReplyKeeps | tools/esperanto/esperanto_runtime.cpp:174-178 | the reply carries the id of that call |
| RemoteCallSteps.OnValueReturnKeeps | tools/esperanto/esperanto_runtime.cpp:361-363 | the flag is raised only after the value is in the table |
| RemoteCallRuns.RunInv | tools/esperanto/esperanto_runtime.cpp:128-364 | this holds in every reachable state |
| RemoteCallRuns.LeavesWithValue | tools/esperanto/esperanto_runtime.cpp:247-260 | the polling loop can be left only when the value is in the table, where it still is when it is read |
| RemoteCallRuns.ReturnsTheAnswer | tools/esperanto/esperanto_runtime.cpp:247-260 | consumeReturn returns the value computed by the one execution for this call |
| RemoteCallRuns.AnswersTheQuestion | tools/esperanto/esperanto_runtime.cpp:268-305 | that execution ran the function and arguments the caller sent |
| RemoteCallRuns.IdsDistinct | tools/esperanto/deviceRuntimeManager.cpp:37-43 | no two ids taken on a device are equal, whether for own calls or incoming ones |
| RemoteCallRuns.OneMessage | tools/esperanto/esperanto_runtime.cpp:203-208 | a call has at most one message, either under way or received |
| RemoteCallProgress.StepCounts | tools/esperanto/esperanto_runtime.cpp:128-364 | every step brings the call it serves exactly one step nearer to its value and leaves every other call as near as it was, with all it needs next in its place |
| RemoteCallReturns.ReturnsAfterServed | tools/esperanto/esperanto_runtime.cpp:128-364 | in every run a call takes 22 steps in all, and its program has the value exactly after the last of them, whatever other calls do in between |
| RemoteCallReturns.ReturnsIff | tools/esperanto/esperanto_runtime.cpp:128-364 | in every reachable state some continuation returns a given call, if and only if its request is not at, or on its way to, a device that has used up its ids |

## Left out

- Tree building, block coding and inflate: trees.c and inflate.c are not part of this model; the tokens and the raw bytes of each block are.
- Stream headers and trailers of wrapped streams (zlib and gzip), and the checksum written behind them.
- deflateParams, deflateSetDictionary, deflateCopy, deflateTune and deflatePrime: level and strategy are fixed for a stream.
- The 16-bit branches and the FASTEST and UNALIGNED_OK variants.
- Deflate.Deflater.FlushBlockOnly: the number of output bytes of a block is arbitrary and so is its form where both are possible, as the coder is not modelled; that covers level 0 with Z_HUFFMAN_ONLY or Z_RLE, where the coder always stores what is still in the window.
- crc32.h: the constants are not read; the tables are those of the generator.
- SharedMemory: heap pages and instrumented scalar stores inside one page; globals, mmap pages, memset and memcpy logging and acquire/release are not modelled, nor the allocator's own unlogged writes into shared pages.
- HomeServer.Server: the page map and the memory are maps from page numbers, requests are handled one at a time, and a sync names the log it carries as a ghost argument.
- HomeServer.PushAddresses: the order of the addresses is any, where a sorted set gives ascending order; no client depends on it.
- XMemory.MemoryManager: one contiguous heap; a run that does not follow the last chunk, reallocate, the export and import of the heap state, and the user's bytes are left out. Sizes are unbounded numbers; the heap's 512 MB keep them below 32 bits.
- newfaceHandler and globalInitCompleteHandler: permission to start; a client joins with no copies and an empty log.
- mmapset.cpp: the same two levels as pageset.cpp without the count.
- JobQueues.JobQueue: the class has one caller at a time; the interleavings of two threads are those of the state machine, on a sequentially consistent memory.
- FcnPtrSelector.MakeFcnPtrSelector: every implementation has a nonempty condition and there is at least one; otherwise the source uses an uninitialised block or dereferences the end of a range. parseCondition is left out.
- Marshalling.ProduceArguments: one call at a time per call site; asynchronous calls share one id and are left out.
- RemoteCalls: the tables of the device runtime are values of a state machine, not a class, since the threads interleave between every two accesses; ids stay below 2^31 - 1, where the counter would become negative.
- Fairness: that every call can return, and in how many steps, is proved; that the scheduler and the channels take these steps is not.
- Sockets, threads, signals, page protection, files, logging and timers.
- LLVM pass plumbing, metadata readers, event and data queues.
