# A verified model of the OpenDelta delta engine

OpenDelta rebuilds firmware archives on a phone from VCDIFF deltas (RFC 3284). This project
models the engine behind that in Dafny and proves what it is for: a delta, however it was made,
merged, compressed, cut up and fed, gives back the target.

The modules follow the program.

- **Window encoder back end** (`Integers`, `AddressCache`, `CodeTable`, `ShortestCodes`, `Delta`,
  `WindowCodec`, `WindowExact`, `Queue`, `QueueCoverage`, `WindowEncoder`, `SectionSizes`, `Encoder`,
  `UncleanFlush`). `Delta` gives instruction lists their meaning; everything else is stated against
  it. A queue of overlapping matches is compacted with little loss, gaps become ADDs, pairs become
  double codes wherever that saves a byte, and the decoder inverts all of it and accepts nothing
  that is left over.
- **String matcher** (`SearchLog`, `Matcher`). `SearchLog` says what each entry in a log of the
  search must be: the run, the source match or the best of the chained candidates that the input
  demands, and the position after it. The scan with runs, source matches across blocks, small
  matches and lazy matching is proved to keep such a log over every run with suspensions, and the
  queue to be what the log says.
- **Resumable decoder** (`SourceBlocks`, `WindowEmitter`, `StreamFormat`, `StreamDecoder`,
  `StreamEncoder`, `StreamJudge`, `StreamCut`, `TruncatedDelta`). `StreamFormat` is a byte-by-byte
  automaton for delta files. The decoder, which takes chunks and suspends for input and for source
  blocks, is proved to follow it, and files as the encoder lays them out are proved to drive it to
  the targets. `StreamJudge` says of files with any field values exactly what is accepted, and
  `StreamCut` what becomes of files that end early.
- **End to end** (`DeltaFile`). From the matcher's queues to the driver's output file.
- **Delta merge** (`Merge`, `WindowParse`, `MergeStream`, `WholeWindows`, `MergeOutput`,
  `MergeRecode`, `MergedFile`). Composition of deltas without the source, the way from the sections
  of windows to whole files, and back to the bytes of a delta file.
- **Secondary compressor** (`BitStream`, `Canonical`, `MoveToFront`, `Heap`, `OptimalCode`,
  `Huffman`, `Djw`, `DjwCoder`, `Secondary`). Optimal, length-limited Huffman codes with their
  Fibonacci bound, canonical decoding, move-to-front with 1/2 runs, and the section round trip with
  exactly the sections that are refused.
- **Checksums** (`Checksums`), **source block cache** (`BlockCache`) and **ZIP normaliser**
  (`ZipFormat`, `ZipAdjust`, `ZipRewrite`, `ZipLoud`).
- **Known answers** (`KnownAnswers`). Byte strings to check by hand, which fix orders and constants.

Pure code is modelled by functions and lemmas. State that the program updates in place is a class
or an array, and its methods are proved against those functions. Types and helpers shared by
all are in `Common` and `Sums`.

Where code and intention differ, the model follows the code.

- `zipadjust.c` masks flags with a logical negation and so clears all of them, not just bit 3
  (`ZipAdjust.FlagsSurvive`, `ZipAdjust.LostFlag`).
- An unforced flush that is left with exactly two overlapping matches encodes the first whole. This
  happens exactly for the queues that `Queue.Stuck` describes (`Queue.FlushIsClean`); two
  overlapping true copies are such a queue, and their window no longer decodes
  (`UncleanFlush.StuckCopies`).
- A flush of a buffer of one to three slots may free none (`Encoder.Encoder.Flush`).
- A miss of the block cache that has to seek looks its slot up twice: the first slot is emptied for
  nothing, and the block goes to the next one (`BlockCache.Cache.Refill`).
- Block offsets are added in 32 bits (`SourceBlocks.BlksizeAdd`, `SourceBlocks.AddOverflows`).
- An empty source copy past the end of the file is noticed only inside a block
  (`SourceBlocks.EmptyCopies`).
- The driver in `delta.c` does not ask whether the delta is complete: every cut of a good file
  succeeds with the windows before the cut, and the delta was complete exactly for a cut at the end
  of the header or of a window (`StreamCut.CutFile`, `TruncatedDelta.LastByteMissing`).
- The encoder does not check that source window and target window together fit 32 bits; the decoder
  refuses every window for which they do not (`StreamEncoder.LongWindowRefused`).
- A merge resolves a copy that starts inside the first target and ends beyond it up to the end of
  the instruction list, where only an assertion stops it (`Merge.OverrunHitsEnd`).
- The search for the ZIP footer ends at the last footer magic with a readable directory, or with
  nothing at a magic too close to the end of the file. So a comment, or a footer field, can hide the
  footer (`ZipRewrite.ArchiveFound`), and an archive whose records take 0x06054b50 bytes makes the
  first pass write a file that the second pass refuses (`ZipRewrite.TwoPasses`,
  `ZipLoud.SecondPassFails`).

What is taken as given: the content of files and the order of chunks are parameters; inflating a
deflated stream is a function that ends by itself; the hash function of the small table may be
anything; and what the table of source checksums answers to each look-up is a parameter, since a
candidate counts only for what compares equal.

## Model

| member | source | states |
|---|---|---|
| `Integers.ReadEncode` | jni/xdelta3-3.0.7/xdelta3.c:1797-1842 | Reading what was emitted gives the number and exactly the bytes after it, for every number that fits 32 bits; every larger number is refused, so the round trip holds if and only if the number fits. |
| `Integers.SizeOfEncode` | jni/xdelta3-3.0.7/xdelta3.c:1849-1856 | The size function agrees with the emitted length for every 32-bit number. |
| `Integers.EncodeIsShortest` | jni/xdelta3-3.0.7/xdelta3.c:1797-1842 | No byte string that reads as the number is shorter than the emitted one. |
| `Integers.EncodeDigits` | jni/xdelta3-3.0.7/xdelta3.c:1826-1842 | The emitted bytes are the base-128 digits of the number, most significant first, with the high bit on all but the last. |
| `KnownAnswers.IntegerExample` | jni/xdelta3-3.0.7/xdelta3.c:1826-1842 | The example of section 2 of RFC 3284, byte for byte. |
| `Integers.OverflowMask` | jni/xdelta3-3.0.7/xdelta3.c:576-577 | The mask test on a 32-bit word is the comparison with 2^25 that the model uses. |
| `Integers.Emit` | jni/xdelta3-3.0.7/xdelta3.c:1826-1842 | The loop that fills a ten-byte buffer from its end produces the encoding, for all 64-bit values, without leaving the buffer. |
| `Integers.ReadInteger` | jni/xdelta3-3.0.7/xdelta3.c:1797-1824 | The reading loop refines the reference reader: same value and new position, or the same error and the old position. |
| `AddressCache.RoundTrip` | jni/xdelta3-3.0.7/xdelta3.c:1978-2097 | For any cache and any address before the current position, decoding the chosen mode and bytes gives the address back, consumes exactly those bytes and leaves equal caches. |
| `AddressCache.EncodeIsShortest` | jni/xdelta3-3.0.7/xdelta3.c:1978-2052 | The bytes are minimal over every mode and every byte string that decodes to the address (section 5 of RFC 3284), for every cache that updates can reach. |
| `AddressCache.InitSettled` | jni/xdelta3-3.0.7/xdelta3.c:1946-1958 | A fresh cache is in the state that minimality relies on. |
| `AddressCache.UpdateSettled` | jni/xdelta3-3.0.7/xdelta3.c:1961-1975 | Every cache update keeps that state. |
| `AddressCache.Lockstep` | jni/xdelta3-3.0.7/xdelta3.c:1945-2097 | Over any sequence of copies the decoder, started from an equal cache, recovers all addresses from the concatenated bytes and ends with an equal cache. |
| `AddressCache.NearRemembers` | jni/xdelta3-3.0.7/xdelta3.c:1946-1975 | After any addresses from the start of a window, near slot j of n holds the last of the addresses number j, j + n, j + 2n and so on, or 0 if there is none. |
| `AddressCache.SameRemembers` | jni/xdelta3-3.0.7/xdelta3.c:1946-1975 | Same slot k holds the last address with that remainder, or 0 if there is none. |
| `AddressCache.ModesMean` | jni/xdelta3-3.0.7/xdelta3.c:2054-2097 | After any addresses a number means, by its mode, itself, the distance back from here, or the distance from the last address that took the near slot. |
| `AddressCache.SameMeans` | jni/xdelta3-3.0.7/xdelta3.c:2054-2097 | After any addresses one byte in a same mode means the last address alike. |
| `KnownAnswers.NearExample` | jni/xdelta3-3.0.7/xdelta3.c:1961-2097 | Two addresses and a near mode, in numbers. |
| `AddressCache.RunIsShortest` | jni/xdelta3-3.0.7/xdelta3.c:1945-2097 | Over any sequence of addresses, from any reachable cache, no choice of modes and bytes that decodes to them is shorter than what the encoder writes, and every such choice ends with the same cache. |
| `AddressCache.WindowIsShortest` | jni/xdelta3-3.0.7/xdelta3.c:1946-2052 | In particular for the addresses of a window, from the zeroed cache of any size. |
| `CodeTable.BuildCodeTable` | jni/xdelta3-3.0.7/xdelta3.c:998-1062 | The generating loops fill all 256 entries exactly as the closed form of section 5.6 of RFC 3284 has it. |
| `KnownAnswers.TableRows` | jni/xdelta3-3.0.7/xdelta3.c:998-1062 | The first and last rows of every group of the table, as section 5.6 of RFC 3284 lists them. |
| `CodeTable.Code1Entry` | jni/xdelta3-3.0.7/xdelta3.c:1193-1256 | The single code chosen for an instruction is an entry of the table for that instruction, with its size or with size zero. |
| `CodeTable.Code2Entry` | jni/xdelta3-3.0.7/xdelta3.c:1193-1256 | A double code, when one is chosen, is the table entry for exactly that pair of instructions and sizes. |
| `CodeTable.Code1Complete` | jni/xdelta3-3.0.7/xdelta3.c:1193-1256 | Whenever the table has a single code with the size, that code is chosen. |
| `CodeTable.Code2Complete` | jni/xdelta3-3.0.7/xdelta3.c:1193-1256 | Whenever the table has a double code for the pair, that code is chosen. |
| `CodeTable.ParseSingle` | jni/xdelta3-3.0.7/xdelta3-decode.h:207-245 | A single code followed by its size, if it has one, parses to the instruction and leaves what follows. |
| `CodeTable.ParseEmit` | jni/xdelta3-3.0.7/xdelta3.c:2943-2973 | For every instruction list, choosing single or double codes with one pending instruction and parsing the bytes gives back the same kinds, modes and sizes in order. |
| `CodeTable.EmitFoldOps` | jni/xdelta3-3.0.7/xdelta3.c:2943-2973 | The encoder that keeps one pending instruction writes what the definition on the whole list writes. |
| `ShortestCodes.PendingCosts` | jni/xdelta3-3.0.7/xdelta3.c:2943-2973 | A pending instruction costs at most its single code, and pairing it with the next never makes the rest longer. |
| `ShortestCodes.EmitIsShortest` | jni/xdelta3-3.0.7/xdelta3.c:2943-2973 | No byte string that reads as the same instructions is shorter than the instruction section written for them. |
| `Delta.CopyBytesMeaning` | jni/xdelta3-3.0.7/xdelta3-decode.h:483-520 | A byte-by-byte copy leaves the output untouched and appends bytes equal to those at the copied addresses of the final output, even where it overlaps itself. |
| `Delta.ApplyReproduces` | jni/xdelta3-3.0.7/xdelta3-decode.h:642-722 | Instructions that describe an input from its start produce exactly that input. |
| `Delta.ApplyDescribes` | jni/xdelta3-3.0.7/xdelta3-decode.h:642-722 | What instructions produce is what they describe. |
| `Delta.ApplyAppend` | jni/xdelta3-3.0.7/xdelta3-decode.h:642-722 | Executing two lists one after the other is executing their concatenation. |
| `WindowCodec.ParseEncoded` | jni/xdelta3-3.0.7/xdelta3-decode.h:207-297 | A half instruction parses back from its table size or size bytes and its address bytes, with the bounds checks passed and the address cache in step. |
| `WindowCodec.OutputEncoded` | jni/xdelta3-3.0.7/xdelta3-decode.h:337-524 | Executing an encoded half instruction has the effect of the instruction and consumes exactly its data bytes. |
| `WindowCodec.EncodeSnoc` | jni/xdelta3-3.0.7/xdelta3.c:2833-2973 | One more instruction only appends to the three sections. |
| `WindowCodec.EmitDecodes` | jni/xdelta3-3.0.7/xdelta3-decode.h:642-722 | From any decoder state in step with the encoder, decoding the sections applies the instructions and uses the sections up. |
| `WindowCodec.WindowRoundTrip` | jni/xdelta3-3.0.7/xdelta3-decode.h:642-722 | For every encodable instruction list the decoder returns what the instructions mean and accepts the three sections as exactly used up. |
| `WindowExact.LeftoverRefused` | jni/xdelta3-3.0.7/xdelta3-decode.h:642-706 | A window that decodes is refused as soon as anything is added to its address or data section. |
| `WindowExact.OtherLengthRefused` | jni/xdelta3-3.0.7/xdelta3-decode.h:642-706 | The same sections decode for one target length only. |
| `WindowExact.EmitRemembers` | jni/xdelta3-3.0.7/xdelta3-decode.h:207-297 | From any state, the address cache after decoding is the one before it after exactly the addresses of the decoded copies, in order. |
| `Queue.Split` | jni/xdelta3-3.0.7/xdelta3.c:3113-3176 | A partial overlap is shared so that both matches stay on their diagonals, meet, and each keeps its size or at least MIN_MATCH bytes. |
| `Queue.FirstSizeNearest` | jni/xdelta3-3.0.7/xdelta3.c:3113-3176 | No other cut within the overlap is nearer to the balanced one, and no other makes the two lengths more alike unless both would exceed MAX_MATCH_SPLIT. |
| `Queue.CompactResult` | jni/xdelta3-3.0.7/xdelta3.c:3036-3180 | Compacting any queue with increasing starts and ends gives ordered matches, disjoint (but for the last two when not forced), each a part of an original on the same diagonal and as long as it or at least MIN_MATCH. |
| `QueueCoverage.CoverageCounts` | jni/xdelta3-3.0.7/xdelta3.c:3036-3180 | The coverage of a queue counts every position of its matches once. |
| `QueueCoverage.CompactCovers` | jni/xdelta3-3.0.7/xdelta3.c:3036-3180 | Compaction loses at most three covered positions for every match that it drops, and none when it drops none. |
| `Queue.StuckIsTwo` | jni/xdelta3-3.0.7/xdelta3.c:3036-3180 | Unforced compaction leaves exactly two matches, and these overlapping, if and only if the queue is of the stuck kind: every next match overlaps the current one and is dropped for the one after or taken instead. |
| `Queue.FlushIsClean` | jni/xdelta3-3.0.7/xdelta3.c:3184-3210 | A flush leaves no match that overlaps what it encoded if and only if it is forced or the queue before compaction is not one that gets stuck at two overlapping matches, a condition on starts and sizes alone. |
| `WindowEncoder.CoverDescribes` | jni/xdelta3-3.0.7/xdelta3.c:2979-3030 | Matches of a compacted queue with ADDs for the gaps describe the input without a hole. |
| `WindowEncoder.CoverEncodable` | jni/xdelta3-3.0.7/xdelta3.c:2833-3030 | The same instructions satisfy every bound that the decoder checks. |
| `WindowEncoder.CompactGenuine` | jni/xdelta3-3.0.7/xdelta3.c:3036-3180 | Compaction turns true matches into true matches. |
| `WindowEncoder.Lossless` | jni/xdelta3-3.0.7/xdelta3.c:2833-3217 | Window losslessness: for every input, source window and queue of true matches with increasing starts and ends, flush, finalize, code and address emission followed by decoding give the input and use up all three sections. |
| `SectionSizes.WindowSize` | jni/xdelta3-3.0.7/xdelta3.c:2833-2973 | The three sections of any encodable window together are at most twelve times its length, so the sizes in its header fit. |
| `UncleanFlush.WrongSizeRefused` | jni/xdelta3-3.0.7/xdelta3-decode.h:642-706 | Whatever the address and data sections and the source hold, instructions whose sizes do not add up to the window length are refused. |
| `UncleanFlush.StuckRefused` | jni/xdelta3-3.0.7/xdelta3.c:2979-3030 | A window in which the first of two overlapping matches went out whole and the second followed without a gap is refused whenever the input is too short for both one after the other. |
| `UncleanFlush.StuckCopies` | jni/xdelta3-3.0.7/xdelta3.c:3184-3210 | Two overlapping true copies from a source: ordered, left as they are by unforced compaction, cut uncleanly by the flush, and their window is refused whatever modes and addresses are written. |
| `Encoder.WrittenSnoc` | jni/xdelta3-3.0.7/xdelta3.c:2833-2973 | What the pending-instruction state owes after one more instruction. |
| `Encoder.WrittenDecodes` | jni/xdelta3-3.0.7/xdelta3.c:2833-2973 | When nothing is pending, the sections decode to what was encoded. |
| `Encoder.Encoder.constructor` | jni/xdelta3-3.0.7/xdelta3.c:3845-3856 | A window starts with nothing encoded, the initial cache and all slots accounted for. |
| `Encoder.Encoder.EncodeAddress` | jni/xdelta3-3.0.7/xdelta3.c:1978-2052 | The search over near and same slots writes the bytes and mode of the reference encoder and updates the cache like it. |
| `Encoder.Encoder.EmitSingleCode` | jni/xdelta3-3.0.7/xdelta3.c:3312-3336 | A single code with its size, if it has one, is appended to the instruction section. |
| `Encoder.Encoder.FillSections` | jni/xdelta3-3.0.7/xdelta3.c:2834-2942 | Address and data sections get exactly what the instruction needs. |
| `Encoder.Encoder.EmitPending` | jni/xdelta3-3.0.7/xdelta3.c:2943-2973 | The pending instruction goes out alone or in a double code, and its slot is freed. |
| `Encoder.Encoder.FinishEncoding` | jni/xdelta3-3.0.7/xdelta3.c:2834-2973 | One instruction more is encoded and the sections still mean all of them. |
| `Encoder.Encoder.AddUnmatched` | jni/xdelta3-3.0.7/xdelta3.c:2979-2996 | The gap before a match is encoded as one ADD of the input bytes. |
| `Encoder.Encoder.AddEncoding` | jni/xdelta3-3.0.7/xdelta3.c:3000-3010 | A match is encoded after its gap, and afterwards no ADD is pending. |
| `Encoder.Encoder.AddFinalize` | jni/xdelta3-3.0.7/xdelta3.c:3014-3030 | The rest of the window becomes an ADD and nothing stays pending. |
| `Encoder.Encoder.Compaction` | jni/xdelta3-3.0.7/xdelta3.c:3052-3180 | The in-place loop with its branches leaves the queue of the reference compaction and conserves slots. |
| `Encoder.Encoder.Drain` | jni/xdelta3-3.0.7/xdelta3.c:3184-3210 | The flush loop encodes a prefix of the queue, of the length the limits allow, with its gaps. |
| `Encoder.Encoder.Flush` | jni/xdelta3-3.0.7/xdelta3.c:3037-3253 | Compaction and flush together: what was encoded and what is left; what is left can still be encoded if and only if the flush was forced or the queue was not stuck; slots are conserved; and no slot becomes free if and only if the pending instruction holds the last one, which takes a buffer of one slot, or of two or three that compaction left full. |
| `Encoder.Encoder.EncodeQueue` | jni/xdelta3-3.0.7/xdelta3.c:3922-3931 | For any ordered queue that stays in the window, true or not, the sections decode, against every source of the length, to what the compacted queue with its gaps means, and have bounded size. |
| `Encoder.Encoder.EncodeWindow` | jni/xdelta3-3.0.7/xdelta3.c:3922-3931 | A forced flush and finalize turn a queue of true matches into sections that decode to the input and are at most twelve times as long. |
| `Matcher.ForwardMatch` | jni/xdelta3-3.0.7/xdelta3.c:4565-4596 | Comparing eight words at a time and then bytes finds the longest common prefix. |
| `Matcher.WordMatch` | jni/xdelta3-3.0.7/xdelta3.c:4571-4586 | The unrolled word loop stops within the equal words plus one. |
| `Matcher.Search.constructor` | jni/xdelta3-3.0.7/xdelta3.c:3845-3856 | A new window starts with an empty queue, an empty log and a table that holds nothing. |
| `Matcher.Search.GetSlot` | jni/xdelta3-3.0.7/xdelta3.c:3220-3253 | The unlimited buffer grows when no slot is free; used and free slots add up. |
| `Matcher.Search.Enqueue` | jni/xdelta3-3.0.7/xdelta3.c:3369-3402 | A true candidate that starts and ends later than the last is appended and keeps the queue sound. |
| `Matcher.Search.Erase` | jni/xdelta3-3.0.7/xdelta3.c:3263-3290 | Exactly the candidates at the end that start at the position or later are dropped. |
| `Matcher.Search.MatchSetup` | jni/xdelta3-3.0.7/xdelta3.c:4416-4562 | A source match is set up if and only if the place is allowed and not the last one tried; its limits are those of input and source. |
| `Matcher.Search.CompareBack` | jni/xdelta3-3.0.7/xdelta3.c:4664-4674 | Within a block the match grows backwards over all equal bytes, up to the first difference. |
| `Matcher.Search.ExtendBack` | jni/xdelta3-3.0.7/xdelta3.c:4629-4679 | Backward extension across blocks, suspended or not, ends with the longest common suffix, unless the application declines a block. |
| `Matcher.Search.ExtendForward` | jni/xdelta3-3.0.7/xdelta3.c:4683-4731 | Forward extension across blocks, suspended or not, ends with the longest common prefix, unless the application declines a block. |
| `Matcher.Search.CompareForward` | jni/xdelta3-3.0.7/xdelta3.c:4683-4731 | Within a block the match grows forwards over all equal bytes, up to the first difference. |
| `Matcher.Search.TakeMatch` | jni/xdelta3-3.0.7/xdelta3.c:4744-4804 | The match takes the place of the candidates it covers, and the address range becomes the least that holds it too. |
| `Matcher.Search.ExtendMatch` | jni/xdelta3-3.0.7/xdelta3.c:4609-4815 | After a request for a block everything is kept for the next call; otherwise the match found is the maximal one at the place and is taken if and only if it is long enough forwards. |
| `Matcher.Search.Smatch` | jni/xdelta3-3.0.7/xdelta3.c:4869-4986 | The candidates looked at are the head of the slot and then always the position entered before, as far as the limits go or until one is enough; the result is the longest of them, the first of its length, unless it is too short and too far. |
| `Matcher.Search.NextCandidate` | jni/xdelta3-3.0.7/xdelta3.c:4928-4962 | The chain leads to the position entered before the last candidate, or ends. |
| `SearchLog.BestIsLongest` | jni/xdelta3-3.0.7/xdelta3.c:4894-4924 | No candidate looked at has more in common with the input than the one returned. |
| `SearchLog.BestIsFirst` | jni/xdelta3-3.0.7/xdelta3.c:4912-4924 | The one returned is a candidate, and the first of its length. |
| `Matcher.Search.CompRun` | jni/xdelta3-3.0.7/xdelta3.c:1638-1652 | The counter is the exact length of the run at the end of the look-ahead. |
| `Matcher.Search.TryRun` | jni/xdelta3-3.0.7/xdelta3.c:5336-5361 | A run is queued if and only if the look-ahead is full, the run was not met before in this scan, and its whole length reaches the minimum and MIN_RUN; what is queued is the whole run. |
| `Matcher.Search.TryLarge` | jni/xdelta3-3.0.7/xdelta3.c:5363-5401 | A place that the table answers and that may be used is tried with the maximal match there; the result, or nothing, or a request for a block. |
| `Matcher.Search.TrySmall` | jni/xdelta3-3.0.7/xdelta3.c:5403-5456 | The best of the chained candidates is queued if and only if it is long enough; the position becomes the head of its slot and the old head its predecessor. |
| `Matcher.Search.HandleLazy` | jni/xdelta3-3.0.7/xdelta3.c:5315-5330 | The search goes on at the next position if and only if the match is one to improve on, and otherwise behind it. |
| `Matcher.Search.TryAll` | jni/xdelta3-3.0.7/xdelta3.c:5333-5456 | At one position run, source match and target match are tried in this order, and the log gets the entry that the input demands. |
| `Matcher.Search.GoOn` | jni/xdelta3-3.0.7/xdelta3.c:5315-5486 | After every entry: the exact minimum, run counter and position for what follows. |
| `Matcher.Search.Scan` | jni/xdelta3-3.0.7/xdelta3.c:5284-5490 | From a restart the log goes on rightly, position by position, to a request, a restart or the end of the input. |
| `Matcher.Search.StringMatch` | jni/xdelta3-3.0.7/xdelta3.c:5233-5494 | With its restarts the matcher goes over the input to its end: whatever it returns, the log is right and the queue what it says. |
| `Matcher.Search.Step` | jni/xdelta3-3.0.7/xdelta3.c:3864-3920 | Re-entry takes up an interrupted match first, enters it in the log, and goes on behind it. |
| `Matcher.Search.Run` | jni/xdelta3-3.0.7/xdelta3.c:3864-3920 | Over any number of calls with blocks supplied in between the log is right and the queue, true and ordered, is what it says; when the search is done, it has gone over the whole input. |
| `SearchLog.NoneSkipped` | jni/xdelta3-3.0.7/xdelta3.c:5284-5490 | No position is passed by: it was tried, or a match that was taken goes over it. |
| `SearchLog.ReplayOrdered` | jni/xdelta3-3.0.7/xdelta3.c:3263-3402 | The queue of a right search has increasing starts and ends. |
| `SearchLog.CoveredStays` | jni/xdelta3-3.0.7/xdelta3.c:3263-3290 | A position once covered by the queue stays covered. |
| `SearchLog.FoundCovered` | jni/xdelta3-3.0.7/xdelta3.c:4744-4804 | All of every match that was taken is covered in the end. |
| `SearchLog.FirstRunQueued` | jni/xdelta3-3.0.7/xdelta3.c:5336-5361 | An input that begins with a run of at least MIN_RUN bytes, unless a source match goes on into it, ends with that whole run first in the queue, or a source match that covers it. |
| `SearchLog.TableEnters` | jni/xdelta3-3.0.7/xdelta3.c:4820-4845 | Entering a position keeps the small table and its chains what the log says. |
| `SearchLog.RepeatFound` | jni/xdelta3-3.0.7/xdelta3.c:5403-5456 | Bytes that were entered before are not missed: the last position alike is looked at, and what is best is taken unless it is no longer than it must be or too short and too far. |
| `SearchLog.RangeHolds` | jni/xdelta3-3.0.7/xdelta3.c:4757-4774 | The noted address range holds every source match that was taken. |
| `SearchLog.RangeUsed` | jni/xdelta3-3.0.7/xdelta3.c:4757-4774 | Both ends of the range are in use. |
| `DeltaFile.Rebase` | jni/xdelta3-3.0.7/xdelta3.c:4349-4407 | Addresses in the file stay true as addresses in the chosen source window. |
| `DeltaFile.EncodeTarget` | jni/xdelta3-3.0.7/xdelta3.c:4349-4414 | A sound search is enough: with the source window of exactly the addresses in use, the sections decode to the input and have bounded size; the only error is a source window longer than 32 bits. |
| `DeltaFile.EncodeDelta` | jni/xdelta3-3.0.7/xdelta3.c:3845-3931 | Any number of sound searches, over inputs of at most the hard maximum window size, become windows that rebuild exactly those inputs; every length bound of the format is derived, none is assumed of the sections. |
| `DeltaFile.ApplyDelta` | jni/delta.c:72-104 | Encoder to driver: a file of windows that rebuild their targets, cut into any chunks and applied in blocks of any size, gives exactly the targets. |
| `DeltaFile.EncodeThenApply` | jni/delta.c:33-104 | End to end, one theorem: whatever sound searches found, encoding them, writing the file, cutting it into chunks of any sizes and running the driver gives the inputs back. |
| `DeltaFile.ApplyCut` | jni/delta.c:72-104 | On a file cut at any byte the driver succeeds with the targets of the windows whole before the cut; the delta was complete if and only if the cut is at the end of the header or of a window. |
| `Merge.FindPosition` | jni/xdelta3-3.0.7/xdelta3-merge.h:365-409 | The binary search finds the instruction that holds the address. |
| `Merge.CopyLoopSupplies` | jni/xdelta3-3.0.7/xdelta3-merge.h:412-524 | The recursion, which ends by the measure (end of range, size) even for self-overlapping target copies, emits pieces that tile the range contiguously, contain no target copy and supply the bytes of the first target. |
| `Merge.MergeInstMeaning` | jni/xdelta3-3.0.7/xdelta3-merge.h:526-577 | One merged instruction has the effect of the second delta's instruction on the first target. |
| `Merge.MergeIsComposition` | jni/xdelta3-3.0.7/xdelta3-merge.h:285-577 | For all deltas that fit together and every source, the merged delta is well formed and produces what the two produce one after the other. |
| `Merge.MergeFails` | jni/xdelta3-3.0.7/xdelta3-merge.h:365-430 | A merge fails if and only if the second delta has a copy that starts beyond the first target. |
| `Merge.OverrunHitsEnd` | jni/xdelta3-3.0.7/xdelta3-merge.h:412-524 | A copy from inside the first target that ends beyond it has consumed every remaining instruction when it reaches the end, so the assertion on the index is what it meets. |
| `MergeStream.Merger.constructor` | jni/xdelta3-3.0.7/xdelta3-merge.h:27-48 | The whole state starts empty. |
| `MergeStream.Merger.WholeAppendInst` | jni/xdelta3-3.0.7/xdelta3-merge.h:162-219 | A half instruction with the literal bytes it takes from the data section is appended with file offsets for window addresses; the section moves on by what was taken. |
| `MergeStream.Merger.WholeAppendWindow` | jni/xdelta3-3.0.7/xdelta3-merge.h:221-257 | From the three sections of a window: the first parse error is returned, or all parsed instructions are appended and the window is noted. |
| `WindowParse.EmitIsParsed` | jni/xdelta3-3.0.7/xdelta3-merge.h:221-257 | From any decoder state: if the sections decode, reading without executing takes the same instructions, never runs out of data, and they mean what decoding writes. |
| `WindowParse.WindowIsParsed` | jni/xdelta3-3.0.7/xdelta3-merge.h:221-257 | So for a whole window. |
| `MergeStream.DecodedIsAppended` | jni/xdelta3-3.0.7/xdelta3-merge.h:221-257 | What is appended for a window that decodes is a valid window with exactly the meaning of the decoded one. |
| `MergeStream.Merger.MergeRun` | jni/xdelta3-3.0.7/xdelta3-merge.h:286-312 | The growing state follows the function on whole states. |
| `MergeStream.Merger.MergeAdd` | jni/xdelta3-3.0.7/xdelta3-merge.h:315-344 | The growing state follows the function on whole states. |
| `MergeStream.Merger.MergeTargetCopy` | jni/xdelta3-3.0.7/xdelta3-merge.h:347-361 | A target copy is kept as it is. |
| `MergeStream.Merger.MergeSourceCopy` | jni/xdelta3-3.0.7/xdelta3-merge.h:412-524 | The imperative recursion appends what the function does. |
| `MergeStream.Merger.MergeInputs` | jni/xdelta3-3.0.7/xdelta3-merge.h:526-577 | The loop over the second delta computes the merge or fails like it. |
| `MergeStream.MergeAll` | jni/xdelta3-3.0.7/xdelta3-main.h:1743-1799 | The command-line fold over any list of deltas equals applying them one after another, on every source. |
| `WholeWindows.AppendWindowMeaning` | jni/xdelta3-3.0.7/xdelta3-merge.h:223-257 | A window appends to the whole target exactly what decoding it produces. |
| `WholeWindows.CollectMeaning` | jni/xdelta3-3.0.7/xdelta3-merge.h:223-257 | The whole state of a delta file means what its windows decode to. |
| `MergeOutput.TakeTrue` | jni/xdelta3-3.0.7/xdelta3-main.h:1934-2002 | Cutting instructions at a window end leaves pieces that tile the window and remainders that tile the rest, all writing the same target. |
| `MergeOutput.WindowMeaning` | jni/xdelta3-3.0.7/xdelta3-main.h:1934-2020 | A window made of such pieces, with the source range they use, decodes to its part of the target. |
| `MergeOutput.TakeLocal` | jni/xdelta3-3.0.7/xdelta3-main.h:1898-1909 | Copies that stay in the windows of the input are never cut and stay local in the output. |
| `MergeOutput.CollectHomed` | jni/xdelta3-3.0.7/xdelta3-merge.h:223-257 | The windows of a delta file tile its target and its target copies stay in them. |
| `MergeOutput.MergeHomed` | jni/xdelta3-3.0.7/xdelta3-merge.h:526-577 | Merging keeps that. |
| `MergeOutput.CollectWindow` | jni/xdelta3-3.0.7/xdelta3-main.h:1934-2002 | The in-place loop takes the pieces of the definition and notes exactly the source range that they use. |
| `MergeOutput.NextWindow` | jni/xdelta3-3.0.7/xdelta3-main.h:1877-2020 | One window of the output, with no more of the source than it uses, or an error if and only if one of the checks fails. |
| `MergeOutput.SplitOutput` | jni/xdelta3-3.0.7/xdelta3-main.h:1843-2053 | Whatever the source of the given length holds, the windows decode, one after the other, to the target of the whole delta; each is as long as its window information; no check fails when copies stay in their windows. |
| `MergeOutput.MergeFiles` | jni/xdelta3-3.0.7/xdelta3-main.h:1843-2053 | Read, merge and split always succeed for files that fit together; the resulting windows decode, on every source of the length, to what the second file makes of what the first makes of it. |
| `MergeRecode.FillWindow` | jni/xdelta3-3.0.7/xdelta3-main.h:1934-2002 | The loop puts every literal at its place in the buffer and queues every run and copy at its position. |
| `MergeRecode.RecodedMeaning` | jni/xdelta3-3.0.7/xdelta3-main.h:1934-2020 | Compaction leaves this queue alone, and encoding it with the gaps taken from a buffer that holds only the literals means what the instructions mean, on every source. |
| `MergeRecode.RecodeWindow` | jni/xdelta3-3.0.7/xdelta3-main.h:1877-2040 | The sections of a recoded window decode, against every segment of the length, to what its instructions mean, and have bounded size. |
| `MergedFile.WriteMerged` | jni/xdelta3-3.0.7/xdelta3-main.h:1843-2053 | The bytes written form a complete delta that decodes, on every source of the length and in blocks of any size, to what the windows decode to. |
| `MergedFile.MergeToFile` | jni/xdelta3-3.0.7/xdelta3-main.h:1843-2053 | Merging two files down to bytes: the new file is complete and does to every source what the two do in turn. |
| `BitStream.UnpackPacked` | jni/xdelta3-3.0.7/xdelta3-second.h:172-238 | Bytes hold the bits written and at most seven zeros. |
| `KnownAnswers.BitOrder` | jni/xdelta3-3.0.7/xdelta3-second.h:172-238 | Bits fill a byte from its lowest bit, values go out from their highest. |
| `BitStream.Writer.constructor` | jni/xdelta3-3.0.7/xdelta3-second.h:22-26 | A new writer has written nothing. |
| `BitStream.Writer.EncodeBit` | jni/xdelta3-3.0.7/xdelta3-second.h:172-201 | One bit is appended; full bytes go out. |
| `BitStream.Writer.EncodeBits` | jni/xdelta3-3.0.7/xdelta3-second.h:211-238 | A value goes out most significant bit first. |
| `BitStream.Writer.FlushBits` | jni/xdelta3-3.0.7/xdelta3-second.h:203-209 | After a flush the output is the packing of all bits. |
| `BitStream.Reader.constructor` | jni/xdelta3-3.0.7/xdelta3-second.h:28-40 | A new reader has all bits of the input before it. |
| `BitStream.Reader.ReadBit` | jni/xdelta3-3.0.7/xdelta3-second.h:40-66 | The next bit, or nothing at the end of the input. |
| `BitStream.Reader.DecodeBits` | jni/xdelta3-3.0.7/xdelta3-second.h:28-75 | A value of the next bits; too few bits are an error. |
| `Canonical.KraftIsPast` | jni/xdelta3-3.0.7/xdelta3-djw.h:513-545 | The scaled Kraft sum is where the codes of the greatest length end. |
| `Canonical.CodeIsSpaceBefore` | jni/xdelta3-3.0.7/xdelta3-djw.h:513-545 | The code of a symbol is the space, in units of its own length, taken up by the symbols before it: those with shorter codes, and those of its length with a smaller index. |
| `Canonical.PrefixFree` | jni/xdelta3-3.0.7/xdelta3-djw.h:513-545 | For lengths with a Kraft sum of at most one no code is a prefix of another. |
| `Canonical.BuildCodes` | jni/xdelta3-3.0.7/xdelta3-djw.h:513-545 | The loops assign the canonical codes (section 3.2.2 of RFC 1951). |
| `Canonical.CountLengths` | jni/xdelta3-3.0.7/xdelta3-djw.h:1365-1388 | Counts, shortest and longest length of any table. |
| `Canonical.FillLimits` | jni/xdelta3-3.0.7/xdelta3-djw.h:1390-1400 | The limit and base tables, over lengths without symbols too. |
| `Canonical.FillInorder` | jni/xdelta3-3.0.7/xdelta3-djw.h:1402-1410 | Every symbol goes to its place in code order. |
| `Canonical.BuildDecoder` | jni/xdelta3-3.0.7/xdelta3-djw.h:1345-1414 | The tables are those of the definition for every length table, even an empty or oversubscribed one. |
| `Canonical.TablesOfCoded` | jni/xdelta3-3.0.7/xdelta3-djw.h:1345-1414 | For a table that codes something these are the tables decoding needs. |
| `Canonical.NothingCoded` | jni/xdelta3-3.0.7/xdelta3-djw.h:1417-1483 | With a table that codes nothing every symbol is an error. |
| `Canonical.DecodeEncoded` | jni/xdelta3-3.0.7/xdelta3-djw.h:1417-1483 | From the code of a symbol followed by anything, the table decoder returns the symbol and exactly what follows. |
| `Canonical.ReadSymbol` | jni/xdelta3-3.0.7/xdelta3-djw.h:1417-1483 | The loop over the reader follows the decoder on bits. |
| `MoveToFront.DecodeRun` | jni/xdelta3-3.0.7/xdelta3-djw.h:343-362 | The 1/2 digits of a run add up to its length when read with growing weights. |
| `MoveToFront.DecodeEncoded` | jni/xdelta3-3.0.7/xdelta3-djw.h:559-609 | For every symbol sequence over the list, decoding inverts encoding, nothing is left and both sides end with the same list. |
| `MoveToFront.EncodeBounds` | jni/xdelta3-3.0.7/xdelta3-djw.h:559-609 | The codes are no more than the symbols, in range, and the final list is a permutation. |
| `MoveToFront.RecentAhead` | jni/xdelta3-3.0.7/xdelta3-djw.h:559-609 | After any symbols the list has what was used later ahead of what was used earlier or not at all. |
| `MoveToFront.ResumeCodes` | jni/xdelta3-3.0.7/xdelta3-djw.h:1541-1613 | Reading the codes from bits follows reading them from a list. |
| `MoveToFront.UpdateMtf` | jni/xdelta3-3.0.7/xdelta3-djw.h:331-340 | The in-place shift moves the element to the front. |
| `MoveToFront.UpdateRun` | jni/xdelta3-3.0.7/xdelta3-djw.h:343-362 | The loop writes the digits of the run and counts them. |
| `MoveToFront.FindIn` | jni/xdelta3-3.0.7/xdelta3-djw.h:579-579 | The search finds the first place of the symbol. |
| `MoveToFront.ComputeMtf` | jni/xdelta3-3.0.7/xdelta3-djw.h:559-609 | The in-place encoder writes the codes of the definition, leaves the final list and counts every code. |
| `MoveToFront.Decode12` | jni/xdelta3-3.0.7/xdelta3-djw.h:1541-1613 | The loop with owed repeats follows the reference; a run that reaches too far is an error. |
| `Heap.HeapInsert` | jni/xdelta3-3.0.7/xdelta3-djw.h:262-275 | The heap stays ordered and holds one entry more. |
| `Heap.HeapExtract` | jni/xdelta3-3.0.7/xdelta3-djw.h:278-309 | A least entry comes out, the rest stays an ordered heap. |
| `Huffman.MergeKeepsHeavy` | jni/xdelta3-3.0.7/xdelta3-djw.h:452-465 | Because each merge takes the two least roots, a node of depth d weighs at least Fib(d + 2). |
| `Huffman.KraftIsOne` | jni/xdelta3-3.0.7/xdelta3-djw.h:469-489 | Lengths read off the tree have a Kraft sum of exactly one. |
| `Huffman.LongNeedsWeight` | jni/xdelta3-3.0.7/xdelta3-djw.h:469-489 | A length beyond the limit needs a total weight of Fib(limit + 3). |
| `Huffman.RescaleShrinks` | jni/xdelta3-3.0.7/xdelta3-djw.h:502-509 | Halving strictly lowers a measure until every weight is 1 or 2. |
| `Huffman.InitialHeap` | jni/xdelta3-3.0.7/xdelta3-djw.h:413-436 | The heap holds exactly the coded symbols. |
| `Huffman.MergePair` | jni/xdelta3-3.0.7/xdelta3-djw.h:452-465 | Two least roots become the children of a new root. |
| `Huffman.BuildTree` | jni/xdelta3-3.0.7/xdelta3-djw.h:452-465 | The loop ends with one tree over all coded symbols, its weight their total. |
| `Huffman.CodeLengths` | jni/xdelta3-3.0.7/xdelta3-djw.h:469-489 | Lengths are numbers of parents; the cost and the overflow flag are exact. |
| `OptimalCode.Exchange` | jni/xdelta3-3.0.7/xdelta3-djw.h:452-465 | Whatever decodable lengths are given, some that cost no more give the two least weights one greatest length, so that merging them first loses nothing. |
| `Huffman.TreeCost` | jni/xdelta3-3.0.7/xdelta3-djw.h:469-489 | Lengths read off a tree cost as much as its internal nodes weigh. |
| `Huffman.TreeIsOptimal` | jni/xdelta3-3.0.7/xdelta3-djw.h:452-489 | No table of lengths with a Kraft sum of at most one that codes every symbol in use costs less than the tree. |
| `Huffman.HeavierIsShorter` | jni/xdelta3-3.0.7/xdelta3-djw.h:452-489 | In an optimal table what occurs more often has no longer code. |
| `Huffman.Attempt` | jni/xdelta3-3.0.7/xdelta3-djw.h:403-489 | One pass gives optimal lengths with codes for exactly the symbols in use, and overflows only if they do not fit. |
| `Huffman.BuildPrefix` | jni/xdelta3-3.0.7/xdelta3-djw.h:385-510 | It ends for all frequencies; every symbol that occurs has a code within the limit, the Kraft sum is exactly one and the returned bits are the cost. The lengths are optimal for the frequencies of the last pass and code exactly their symbols; every halving was needed because some optimal lengths did not fit, and none takes place when the frequencies add up to less than Fib(limit + 3). |
| `Huffman.UsedSizes` | jni/xdelta3-3.0.7/xdelta3-djw.h:44-98 | All alphabet sizes and limits in use leave room for any frequencies. |
| `Djw.ReadWrittenClclen` | jni/xdelta3-3.0.7/xdelta3-djw.h:1486-1538 | The lengths of the length codes are read back, trailing zeros included. |
| `Djw.ReadWrittenPrefix` | jni/xdelta3-3.0.7/xdelta3-djw.h:1616-1633 | The 256 code lengths are read back. |
| `Djw.ReadWrittenSymbols` | jni/xdelta3-3.0.7/xdelta3-djw.h:1801-1822 | The data is read back and what follows is left. |
| `Djw.RoundTrip` | jni/xdelta3-3.0.7/xdelta3-djw.h:1636-1834 | The one-group decoder inverts the message, whatever bits follow. |
| `DjwCoder.CountFreqs` | jni/xdelta3-3.0.7/xdelta3-djw.h:613-640 | Frequencies count the bytes. |
| `DjwCoder.BestIsOptimal` | jni/xdelta3-3.0.7/xdelta3-djw.h:385-510 | For fewer than Fib(limit + 3) symbols, two of them different, the lengths in use are optimal. |
| `DjwCoder.DataBits` | jni/xdelta3-3.0.7/xdelta3-djw.h:937-959 | The data takes exactly the bits that the prefix builder returned. |
| `DjwCoder.ComputePrefix` | jni/xdelta3-3.0.7/xdelta3-djw.h:670-678 | The symbols of the prefix and their frequencies. |
| `DjwCoder.EncodePrefix` | jni/xdelta3-3.0.7/xdelta3-djw.h:681-739 | The prefix bits are written, with a best code for the length symbols. |
| `DjwCoder.EncodeHuff` | jni/xdelta3-3.0.7/xdelta3-djw.h:862-960 | With best lengths for the data, the packed message is returned unless the data bits, or these with the prefix, leave too little to save and inefficiency is not allowed; otherwise nothing. |
| `DjwCoder.HuffRoundTrip` | jni/xdelta3-3.0.7/xdelta3-djw.h:862-960 | Every non-empty section that is coded decodes to itself with less than a byte left over. |
| `DjwCoder.DecodeClclen` | jni/xdelta3-3.0.7/xdelta3-djw.h:1486-1538 | The loop follows the reference on any input. |
| `DjwCoder.DecodeData` | jni/xdelta3-3.0.7/xdelta3-djw.h:1801-1822 | The loop follows the reference on any input. |
| `DjwCoder.DecodeSection` | jni/xdelta3-3.0.7/xdelta3-djw.h:1636-1834 | On any input the decoder follows the reference and reports the bytes used to within the last byte. |
| `Secondary.SectionRoundTrip` | jni/xdelta3-3.0.7/xdelta3-second.h:121-168 | A coded section with its size decompresses to itself. |
| `Secondary.EncodeSecondary` | jni/xdelta3-3.0.7/xdelta3-second.h:241-313 | What is returned decompresses to the section and, unless inefficiency is allowed, saves more than two bytes; nothing is returned only for a section that is too short or that best lengths do not make small enough. |
| `Secondary.DecodeSecondary` | jni/xdelta3-3.0.7/xdelta3-second.h:121-168 | The driver refuses unused input and otherwise returns the section. |
| `SourceBlocks.BlksizeDiv` | jni/xdelta3-3.0.7/xdelta3.h:1318-1327 | Block number and offset of a position. |
| `SourceBlocks.BlksizeAdd` | jni/xdelta3-3.0.7/xdelta3.h:1329-1347 | The position that an addition in 32 bits gives, for all operands, and that it is the right one if and only if the addition does not overflow. |
| `SourceBlocks.AddOverflows` | jni/xdelta3-3.0.7/xdelta3.h:1329-1347 | With the block size of delta.c, a concrete offset for which the position comes out 4 GiB short. |
| `SourceBlocks.EmptyCopies` | jni/xdelta3-3.0.7/xdelta3-decode.h:447-482 | Concrete empty copies beyond the end of a file, one refused and one let through. |
| `WindowEmitter.FitsIsExact` | jni/xdelta3-3.0.7/xdelta3-decode.h:424-482 | The condition on a segment that the decoder model uses holds if and only if, for every copy within the segment, both the offset addition and the comparison of block offset plus length stay within 32 bits. |
| `SourceBlocks.BlockStep` | jni/xdelta3-3.0.7/xdelta3-decode.h:447-482 | What one visit to a block settles: the end of the file, the rest of the copy, or its part up to the block end. |
| `WindowEmitter.WholeSegment` | jni/xdelta3-3.0.7/xdelta3-decode.h:386-523 | If the file holds the segment, output by blocks equals output with the segment at hand. |
| `WindowEmitter.DecodeFromWhole` | jni/xdelta3-3.0.7/xdelta3-decode.h:642-722 | So does decoding a window. |
| `WindowEmitter.CopyTarget` | jni/xdelta3-3.0.7/xdelta3-decode.h:504-515 | The byte loop of a target copy follows the definition. |
| `WindowEmitter.Emitter.constructor` | jni/xdelta3-3.0.7/xdelta3-decode.h:1077-1104 | A window is set up with its segment, sections and initial cache. |
| `WindowEmitter.Emitter.OutputSource` | jni/xdelta3-3.0.7/xdelta3-decode.h:424-486 | A source copy writes exactly its part of the file, asks for the block it needs, or fails exactly when the file is too short. |
| `WindowEmitter.Emitter.OutputHalfInst` | jni/xdelta3-3.0.7/xdelta3-decode.h:338-524 | Progress keeps the outcome of the instruction; a request for a block changes nothing. |
| `WindowEmitter.Emitter.Drain` | jni/xdelta3-3.0.7/xdelta3-decode.h:669-685 | One half instruction to its end, with remaining size as the measure. |
| `WindowEmitter.Emitter.Run` | jni/xdelta3-3.0.7/xdelta3-decode.h:643-686 | Over any suspension the outcome of the window is kept, and the work left decreases. |
| `WindowEmitter.Emitter.Emit` | jni/xdelta3-3.0.7/xdelta3-decode.h:643-706 | The final checks accept exactly a window that is full and has used its sections. |
| `WindowEmitter.Emitter.Drive` | jni/delta.c:89-94 | With every requested block supplied the window is output or fails as the reference says. |
| `StreamFormat.FeedBytes` | jni/xdelta3-3.0.7/xdelta3.c:1676-1702 | The bytes of a field may come in pieces. |
| `StreamDecoder.ReadByte` | jni/xdelta3-3.0.7/xdelta3.c:1661-1673 | A byte, or a request for input. |
| `StreamDecoder.ReadBytes` | jni/xdelta3-3.0.7/xdelta3.c:1676-1702 | A field of bytes, full or kept for the next call. |
| `StreamDecoder.ReadNumber` | jni/xdelta3-3.0.7/xdelta3.c:1771-1795 | A number, its digits kept between calls; overflow is an error. |
| `StreamDecoder.ReadSection` | jni/xdelta3-3.0.7/xdelta3-decode.h:131-200 | A section, in place when the rest of the window is at hand, otherwise copied piece by piece, never beyond the input. |
| `StreamDecoder.Stream.constructor` | jni/xdelta3-3.0.7/xdelta3-decode.h:725-760 | A new decoder is in the first state of the automaton. |
| `StreamDecoder.Stream.AvailInput` | jni/delta.c:78-78 | New input changes nothing of the state. |
| `StreamDecoder.Stream.ReadItem` | jni/xdelta3-3.0.7/xdelta3-decode.h:725-1070 | The field of the current state, in whatever pieces it comes. |
| `StreamDecoder.Stream.Advance` | jni/xdelta3-3.0.7/xdelta3-decode.h:725-1070 | A complete field takes the machine to its next state with all checks. |
| `StreamDecoder.Stream.EmitStep` | jni/xdelta3-3.0.7/xdelta3-decode.h:1077-1112 | The window with its checks, or a request for a block that keeps everything. |
| `StreamDecoder.Stream.Verify` | jni/xdelta3-3.0.7/xdelta3-decode.h:707-719 | The checksum test. |
| `StreamDecoder.Stream.DecodeInput` | jni/xdelta3-3.0.7/xdelta3-decode.h:725-1146 | Whatever is returned, the state is what the bytes taken in make of the state before; input is asked for only when all is used. |
| `StreamDecoder.Process` | jni/delta.c:79-104 | The driver loop ends on every chunk and reaches the state of the automaton. |
| `StreamDecoder.Dedelta` | jni/delta.c:33-104 | Chunking independence: for every way of cutting the delta and every block size, success and output are those of the whole delta taken byte by byte. |
| `StreamEncoder.FeedWindow` | jni/xdelta3-3.0.7/xdelta3.c:3405-3592 | A window as the encoder writes it decodes to its target, whatever follows. |
| `StreamEncoder.FileRoundTrip` | jni/xdelta3-3.0.7/xdelta3.c:3405-3592 | A file of good windows decodes to their targets, ends between windows and counts them. |
| `KnownAnswers.SmallestDelta` | jni/xdelta3-3.0.7/xdelta3.c:3405-3592 | The smallest delta file with a target, byte for byte. |
| `StreamEncoder.LongWindowRefused` | jni/xdelta3-3.0.7/xdelta3.c:3405-3592 | Every window whose source and target lengths together exceed 32 bits is refused by the decoder with nothing output, whatever its sections. |
| `StreamEncoder.EncodedRebuilds` | jni/xdelta3-3.0.7/xdelta3.c:3405-3592 | A window encoded against a segment of the file is a good window. |
| `StreamJudge.JudgeNumber` | jni/xdelta3-3.0.7/xdelta3-decode.h:725-1070 | A size field is taken if and only if the number fits 32 bits and passes its check. |
| `StreamJudge.JudgeWindow` | jni/xdelta3-3.0.7/xdelta3-decode.h:725-1146 | For windows whose fields hold any values: the decoder goes on behind the target if and only if indicators, offsets, sizes and limits are right, the length of the encoding is true, the sections decode and the checksum, if there is one, is the target's; otherwise it fails with nothing of the window output. |
| `StreamJudge.ChecksumRefused` | jni/xdelta3-3.0.7/xdelta3-decode.h:707-719 | A window that is right but for its checksum gives the target if the checksum is that of the target, and otherwise the error with nothing output. |
| `StreamJudge.JudgeWindows` | jni/xdelta3-3.0.7/xdelta3-decode.h:725-1146 | For any list of windows: the targets before the first that is refused, and success if none is. |
| `StreamJudge.JudgeHeader` | jni/xdelta3-3.0.7/xdelta3-decode.h:725-1000 | A file header is accepted if and only if it has the magic, version 0 and no flags but that of an application header, whose size fits. |
| `StreamJudge.JudgeFile` | jni/delta.c:33-104 | The driver on any such file, in any chunks and blocks: it succeeds if and only if header and all windows are accepted, and its output is the targets before the first that is not. |
| `StreamCut.CutBetween` | jni/xdelta3-3.0.7/xdelta3-decode.h:725-1146 | Every byte takes the decoder strictly forward from between windows: a cut inside leaves it later than the start, before the end, and with output only for windows counted. |
| `StreamCut.CutWindows` | jni/xdelta3-3.0.7/xdelta3-decode.h:725-1146 | Among good windows a cut at any byte leaves exactly the targets and the count of the whole windows before it, and a complete state if and only if it is between windows. |
| `StreamCut.CutFile` | jni/xdelta3-3.0.7/xdelta3-decode.h:725-1146 | The same for a file with its header, at any byte. |
| `TruncatedDelta.LastByteMissing` | jni/delta.c:72-104 | A concrete delta without its last byte: no error, no output, not complete. |
| `Checksums.BlockFits` | jni/xdelta3-3.0.7/xdelta3.c:1588-1590 | A block of NMAX bytes keeps the sums in 32 bits from any start, and one byte more need not. |
| `Checksums.Adler32` | jni/xdelta3-3.0.7/xdelta3.c:1597-1631 | Reducing only after each block equals the per-byte definition (section 8.2 of RFC 1950) from any start and for any length, within 32 bits. |
| `KnownAnswers.ChecksumExample` | jni/xdelta3-3.0.7/xdelta3.c:1597-1631 | The checksum of a well-known word. |
| `Checksums.Lcksum` | jni/xdelta3-3.0.7/xdelta3-hash.h:108-121 | The 32-bit loop computes the definition of the large checksum. |
| `Checksums.LargeUpdate` | jni/xdelta3-3.0.7/xdelta3-hash.h:55-63 | The rolling update equals recomputation one position on. |
| `Checksums.RollAll` | jni/xdelta3-3.0.7/xdelta3.c:5302-5312 | Over a whole scan the rolling checksum equals recomputation at every position. |
| `BlockCache.Cache.constructor` | jni/xdelta3-3.0.7/xdelta3-blkcache.h:140-211 | After the first read and the split every slot holds its block of the file. |
| `BlockCache.Cache.GetblkLru` | jni/xdelta3-3.0.7/xdelta3-blkcache.h:278-335 | The slot of a block, or an emptied one: in LRU mode the one unused for longest, in FIFO mode the fixed one; refusal exactly for a later block in it; in LRU mode the slot becomes the last used. |
| `BlockCache.Cache.Touch` | jni/xdelta3-3.0.7/xdelta3-blkcache.h:303-330 | The slot goes to the back of the list, which stays a permutation in order of last use. |
| `BlockCache.Cache.GetblkFunc` | jni/xdelta3-3.0.7/xdelta3-blkcache.h:462-569 | The block handed out is what a direct read gives. A hit changes no slot and reads nothing; after a miss exactly the stated slots have changed. |
| `BlockCache.Cache.Refill` | jni/xdelta3-3.0.7/xdelta3-blkcache.h:505-569 | A miss fills the slot unused for longest; after a seek that one is left empty and the next is filled. |
| `BlockCache.RankFalls` | jni/xdelta3-3.0.7/xdelta3-blkcache.h:278-335 | A request for another block takes at most two places from a block in the list. |
| `BlockCache.Retained` | jni/xdelta3-3.0.7/xdelta3-blkcache.h:462-569 | In LRU mode a block is still in the cache after as many further requests as fit half of the other slots. |
| `BlockCache.RefusedOnlyFarBack` | jni/xdelta3-3.0.7/xdelta3-blkcache.h:286-301 | In FIFO mode only a request that goes back a whole cache is refused. |
| `BlockCache.Serve` | jni/xdelta3-3.0.7/xdelta3-blkcache.h:462-569 | Any sequence of requests agrees with the file; without FIFO nothing is refused. |
| `ZipFormat.ReadWrite` | jni/zipadjust.c:30-91 | Headers are read back from the bytes written. |
| `ZipFormat.SearchEndsAt` | jni/zipadjust.c:209-228 | On every file the search ends at the last place with a footer magic whose header is cut off or whose directory is missing from the file or begins with an entry, and gives the footer there or, when something is cut off, nothing. |
| `ZipAdjust.FlagsSurvive` | jni/zipadjust.c:268-268 | The flags other than the descriptor flag survive if and only if there are none, because the mask is a logical negation. |
| `ZipAdjust.LostFlag` | jni/zipadjust.c:268-268 | A concrete flag word that loses its UTF-8 flag. |
| `ZipAdjust.FieldsKept` | jni/zipadjust.c:266-293 | Every header field but the ones rewritten is the input's, in the directory and in the local header; method and compressed size change exactly for a member that is inflated; the contents are inflated or the same. |
| `ZipAdjust.FooterKept` | jni/zipadjust.c:298-304 | The footer keeps all but size, offset and comment length of the directory. |
| `ZipAdjust.AdjustedMember` | jni/zipadjust.c:266-292 | A rewritten member is well formed, its headers match, name and contents are the same, and all fields that are not rewritten are kept. |
| `ZipAdjust.PlaceMeaning` | jni/zipadjust.c:248-296 | All members keep names, contents and the fields that are not rewritten, records are contiguous and every central offset finds its record. |
| `ZipAdjust.PlaceTwice` | jni/zipadjust.c:248-296 | Rewriting again changes nothing. |
| `ZipAdjust.SearchLastFooter` | jni/zipadjust.c:209-228 | A footer at the end of a file is found if and only if its own bytes hold no second magic; otherwise the search ends with nothing. |
| `ZipAdjust.OutputIsArchive` | jni/zipadjust.c:240-304 | Whatever the footer fields hold, the output is an archive: the footer finds the directory, the directory the records. |
| `ZipRewrite.FindFooter` | jni/zipadjust.c:209-228 | On every file, archive or not, the loop returns the footer at the last place that ends the search, or nothing, with the short reads as errors and the 32-bit size in a signed counter. |
| `ZipRewrite.ArchiveFound` | jni/zipadjust.c:209-228 | In an archive the footer is found if and only if the size fits the counter and no later place ends the search, but for an equal copy; a later place gives the footer there or nothing. |
| `ZipRewrite.RewriteHeaders` | jni/zipadjust.c:266-280 | The updates change exactly the fields named, to the values given, and no other. |
| `ZipRewrite.RewriteMember` | jni/zipadjust.c:248-296 | One round of the loop gives the rewritten record and entry, or nothing if and only if the contents are to be inflated and do not. |
| `ZipRewrite.Zipadjust` | jni/zipadjust.c:194-304 | On every file whose search leads to nothing or to a directory of members: output comes out if and only if the search succeeds and every member to be inflated does, and it is the image of the rewritten members if and only if its offsets fit 32 bits. |
| `ZipRewrite.TwoPasses` | jni/zipadjust.c:194-304 | A second pass writes the same bytes if and only if the new footer holds no second magic and the size fits the signed counter; otherwise it writes nothing. |
| `ZipLoud.LoudFooter` | jni/zipadjust.c:209-228 | A directory offset of 0x06054b50 puts a second magic into the footer, one more does not. |
| `ZipLoud.SecondPassFails` | jni/zipadjust.c:194-304 | A concrete archive on which the first pass succeeds and the second writes nothing. |

## Left out

- StreamDecoder.Stream.Advance: VCD_TARGET copy windows and custom code tables stop with an error at their header bits.
- StreamDecoder.Stream.EmitStep: a segment whose block offset plus length exceeds 32 bits is reported as unsupported, where the program would read a wrong block or compare a wrapped sum; `WindowEmitter.FitsIsExact` says exactly which segments these are.
- StreamDecoder.Dedelta: the same for such segments.
- Secondary compression inside delta files: the decoder is modelled as OpenDelta builds it, where every secondary compressor is unavailable; `Secondary` stands beside it.
- Several Huffman groups in one section, their tables, selectors and efficiency heuristics.
- DjwCoder.DecodeSection: reports a section with several groups as an error, where the program decodes it.
- MoveToFront.Decode12: has no skip offset, which only matters for the second and later groups.
- The FGK and LZMA compressors, and zlib's inflate.
- Sums of addresses and sizes in the bounds checks of the window decoder, and the sum of section sizes, are computed without 32-bit wrap-around.
- Frequencies, code costs and adler32 lengths are unbounded numbers, except where a row speaks of 32 bits.
- UncleanFlush.StuckRefused: takes the codes of the stuck window as the source's functions would write them without assertions; the methods of `Encoder` keep the source's assertion that an instruction starts where the encoding stands.
- Matcher.Search.GetSlot: only the unlimited instruction buffer; a limited one flushes, and decides the source window, during the search.
- Matcher.Search.MatchSetup: only the undecided source window and no greedy mode.
- Matcher.Search.Run: bounds the number of calls instead of proving that the search always ends, because the answers of the table of source checksums are arbitrary.
- Matcher.Search.Smatch: when the head of the slot lies further back than the chains are long, its chain entry may belong to another position, and what is looked at after it is only said to compare as it does.
- Matcher.Search.ExtendBack: an application that answers XD3_TOOFARBACK may stop an extension anywhere; the maximal match is promised for one that does not.
- Matcher.Search.ExtendForward: the same.
- StreamJudge.JudgeFile: numbers are written in their shortest form; redundant leading digits are not covered.
- Computing source checksums ahead of the input (xd3_srcwin_move_point) and sizing hash tables: they choose candidates, not results.
- DeltaFile.EncodeTarget: requires that source window and input together fit 32 bits, which the source does not check; `StreamEncoder.LongWindowRefused` shows that no such window can be decoded.
- DeltaFile.EncodeDelta: windows of at most HARD_MAX_WINSIZE bytes, and segments that the decoder model supports.
- Merge.MergeFails: copies that start inside the first target and end beyond it are excluded; the source has only an assertion there, which `Merge.OverrunHitsEnd` shows to be met.
- MergeStream.Merger.MergeSourceCopy: excludes the same copies.
- MergeStream.Merger.MergeInputs: excludes the same copies.
- MergeStream.Merger.WholeAppendInst: requires that the data section holds the literals; the source reads on without a check.
- MergeStream.Merger.WholeAppendWindow: requires that the data section lasts, as it does for every window that decodes (`WindowParse.WindowIsParsed`).
- MergeStream.DecodedIsAppended: gives the meaning for windows without empty instructions, which the encoder never writes.
- MergedFile.WriteMerged: writes no window checksums (the source recombines those of the second file), with an unlimited instruction buffer, for sources that fit 32 bits together with the largest window.
- MergedFile.MergeToFile: the same.
- The block cache for sources that cannot seek, and read errors.
- ZipRewrite.Zipadjust: the directory that the search leads to must hold well-formed members: names shorter than 1024 bytes (the program's buffer has no more room), equal name and extra lengths in both headers (otherwise contents are taken from a wrong place), deflated streams of the announced size or none at all. File offsets are 64 bits wide; what is written beyond 4 GiB is only said not to be the image.
- ZipRewrite.RewriteMember: the same conditions on one member.
- Cyclic lists are sequences; allocation, statistics, messages, option parsing, JNI glue and the Android application are not modelled.
