# Verified model of gigatoken

gigatoken encodes text with fast forms: heaps with stale entries, linear scans over index arrays, packed hash
tables, unit-wise encoding through a cache that is wiped at will, documents cut into fragments and gathered by
racing workers, a trainer that updates counts instead of recounting. Each is meant to give exactly the tokens of
a simple form. This project states the simple forms and proves the fast forms equal to them.

The centre is `MergeSpec.MergeAll(rules, symbols)`: merge the adjacent pair least in (rank, position) until no
pair has a rule. Everything else refines it or is composed from it.

## Layout

- `common.dfy`, `utf8.dfy`, `byte_search.dfy`: shared definitions, the byte facts of UTF-8 (RFC 3629, section 3),
  substring search.
- `merge_spec.dfy`: the specification, byte conservation, and merging of a concatenation.
- `merge_list.dfy`, `merge_heap.dfy`, `merge_scan.dfy`, `merge_packed.dfy`, `bpe_merge.dfy`: the merge loops, in
  place on an array (`src/bpe/mod.rs`).
- `merge_priority.dfy`: merged ids as priorities against list positions (`src/load_tokenizer/hf.rs`).
- `probing.dfy`, `pair_rank_table.dfy`: linear probing and the dense/packed pair table (`src/bpe/mod.rs`).
- `sp_model.dfy`, `sp_boundaries.dfy`, `sp_finalize.dfy`, `sp_encode_spec.dfy`, `sp_cache.dfy`, `sp_units.dfy`,
  `added_tokens.dfy`, `sp_fragments.dfy`, `sp_fragment_ranges.dfy`, `sp_encode.dfy`, `sp_round_trip.dfy`: the
  SentencePiece encoder from tables to decoded text (`src/bpe/sentencepiece.rs`).
- `sp_sections.dfy`: what the specified encoding is, read off the tables: the raw fast path against the normalizer,
  pre-tokenizer and merge it stands for, and a text's sections around its added tokens.
- `gather.dfy`: the overlapped gather as a transition system, any number of workers, any interleaving
  (`src/batch.rs`).
- `doc_chunks.dfy`, `sp_chunks.dfy`: chunk building and row counts (`src/batch.rs`).
- `parallel_encode.dfy`: whole parallel encode calls over documents and files against the serial loops
  (`src/batch.rs`).
- `trainer_words.dfy`, `trainer_update.dfy`, `trainer_ties.dfy`, `trainer_replay.dfy`, `trainer.dfy`,
  `trainer_order.dfy`: the trainer against recounting from scratch, and against the encoder
  (`src/bpe_train.rs`).
- `pretoken_slots.dfy`, `pretoken_cache.dfy`: the open-addressed cache as a finite map
  (`src/bpe/pretoken_cache.rs`).
- `documents.dfy`, `document_chunks.dfy`, `json_lines.dfy`: document iteration, serially and by regions
  (`src/input/*`).

`dafny verify dfyconfig.toml` checks the whole project.

## What the theorems assume

- A merge table is byte-consistent: a merged token spells its two parts, and a merged piece is text (the loaders
  look the merged token up by the joined string). For trained tables this is proved (`Trainer.LearnedConsistent`).
- Character initialisation drops no character of the text (`Covered`): the code silently skips a character that
  has neither a piece nor byte tokens, and a dropped character breaks the argument about the bytes at a boundary.
- ▁ has a piece or byte tokens.
- Added-token contents are non-empty text.
- One `EncodeState` serves one mode. The comment at `src/bpe/sentencepiece.rs:1362-1365` says that byte-equal keys
  always encode alike; across raw and normalized mode this holds exactly for keys without a raw space
  (`SpEncodeSpec.ModesAgreeIffNoSpace`), and `src/lib.rs:478-489` uses the state of the raw path.
- Cached spans fit the 32-bit fields they are stored in (`FitOffsets`): no unit encodes to 2^32 tokens, and offsets
  fit by the budget, or, with none, while the arena has room. Texts, sections and fragments may be of any length;
  what is bounded is the stretch the scanner cuts nowhere (`SpUnits.UnitsBelow`).
- The byte-level document splitter yields at least one piece per non-empty document; the pieces are the document's
  bytes in order and encode to what the document encodes to; its encoder does not look at where a piece stands. For SentencePiece documents
  nothing is assumed of the splitter: it is `SafeFragmentRanges`.
- Trained words are non-empty and have positive counts: a word counted zero times has pairs queued that it is not
  listed under (`TrainerWords.ZeroCountListsNothing`), and the lookup at `src/bpe_train.rs:80` would fail on them.

## Where the code does less than its comments say

- `is_sorted_by_key` at `src/load_tokenizer/hf.rs:751` is not strict, so two list entries may share a merged id, and
  the id table may then merge in another order than the list. Where tokens are numbered after their parts, the
  condition is the absence of overlaps: no two deciding entries `i < j` with one merged id where the right part of `j`
  is the left part of `i`. It is exact for a list together with its beginnings
  (`MergePriority.LoadedInListOrderIffNoOverlap`). For the whole list alone it is sufficient
  (`MergePriority.WholeListInListOrder`) but not necessary: later merges may join what the two choices leave
  (`MergePriority.OverlapMayBeHarmless` is a list where they always do), and it is necessary that they join on.
  `MergePriority.SharedIdMergesDiffer` is an input that differs; `MergePriority.PartAboveMergesDiffer` one without
  overlap, where a part is numbered above its merged id.
- Region-wise reading of a text file equals serial reading exactly for separators without a border, at every region
  size and at the one the program takes (`DocumentChunks.ChunkedIsSerialIffBorderFree`, `ReadIsSerialIffBorderFree`);
  `"aa"` has a border.
- A line of JSON that does not parse ends the iteration of its region only. A buffer read by regions is read as it is
  serially exactly when nothing is read after the region of the first such line
  (`JsonLines.ChunkedIsSerialIffFailsOut`); at every region size some buffer fails this as soon as one line parses and
  another does not (`JsonLines.ChunkedIsSerialIffNotMixed`).
- Decoding an encoded text gives it back exactly under the condition of `SpRoundTrip.RoundTrip`.
- The training loop does not stop when all counts are used up. It then repeats merges that change nothing, which
  `Trainer.Train` and `TrainerReplay.ReplayIsMergeAll` allow for.

## Model

| member | source | states |
|---|---|---|
| `MergeSpec.Least` | src/bpe/mod.rs:451-464 | the pair merged next: among all pairs with a rule, the one least in (rank, position); none exactly when no pair has a rule |
| `MergeSpec.MergeAllStep` | src/bpe/mod.rs:387-431 | merging the least pair and going on gives the same result as the whole merge, whichever loop found that pair |
| `MergeSpec.LeastRankMerges` | src/bpe/mod.rs:342-431 | with a rank lookup, the pair that merges into the least token, the leftmost of equal ones, is replaced by that token, and merging goes on |
| `MergeSpec.MergeAllStuck` | src/bpe/mod.rs:313-333 | what a merge leaves has no pair to merge, is no longer than the input, and is empty only for the empty input |
| `MergeSpec.MergeAllSpell` | src/bpe/sentencepiece.rs:1458-1463 | merging conserves the spelled bytes, for byte-consistent tables |
| `MergeSpec.NoPairAcross` | src/bpe/sentencepiece.rs:462-466 | two token runs whose spellings no rule joins across the cut have no mergeable pair on the cut |
| `MergeSpec.MergeConcat` | src/bpe/sentencepiece.rs:462-466 | where no rule crosses the cut, the merge of a concatenation is the concatenation of the merges, for every pair of token runs |
| `MergeList.Unlink` | src/bpe/mod.rs:402-411 | unlinking the right element of a merged pair keeps the index lists a doubly linked list of the remaining positions |
| `MergeList.SurvivorsMerge` | src/bpe/mod.rs:402-412 | writing the merged token and dropping its right neighbour is one merge of the surviving symbols |
| `MergeList.Compact` | src/bpe/mod.rs:432-446 | compacting along the links moves exactly the surviving symbols, in order, to the front |
| `MergeHeap.PackOrder` | src/bpe/mod.rs:300-306 | comparing packed heap entries is comparing (rank, position), for positions the entry has room for |
| `MergeHeap.PopLeast` | src/bpe/mod.rs:387 | pop removes one occurrence of a least entry |
| `MergeHeap.PoppedIsLeast` | src/bpe/mod.rs:387-400 | a popped entry that still matches its live pair is the least pair of the survivors, with no assumption on how ranks grow |
| `MergeHeap.StaleUncovers` | src/bpe/mod.rs:391-400 | discarding an entry that no longer matches loses no live pair |
| `MergeHeap.MergedCovers` | src/bpe/mod.rs:400-428 | after a merge and the two pushes the heap again holds an entry for every live pair |
| `MergeHeap.PopAndMerge` | src/bpe/mod.rs:387-430 | one round of the loop: the survivors are unchanged or merged at their least pair, the heap covers them again, and pushes are paid for by merges |
| `MergeHeap.MergeWithHeap` | src/bpe/mod.rs:342-446 | the heap merge leaves exactly the specified merge in the array, for arbitrary ranks and u32 or usize positions, in at most n-1 merges and 3(n-1) pops |
| `MergeScan.FindBest` | src/bpe/mod.rs:486-496 | the linear scan returns the first position of the least rank, or the no-merge rank when there is none |
| `MergeScan.FirstLeastIsLeast` | src/bpe/mod.rs:465-527 | the first position of least rank is the least live pair of the symbols |
| `MergeScan.RankedStep` | src/bpe/mod.rs:497-516 | refreshing the two touched positions and clearing the dead one keeps every rank right |
| `MergeScan.MergeBest` | src/bpe/mod.rs:497-516 | one merge of the scan is one merge of the surviving symbols at the found pair, with links and ranks kept |
| `MergeScan.MergeScanned` | src/bpe/mod.rs:465-527 | the linear-scan merge equals the specified merge for every table whose ranks are below the no-merge rank, over at most 32 symbols |
| `MergePacked.PackLaneOrder` | src/bpe/mod.rs:647-719 | comparing packed lanes is comparing (rank, position) for ranks below 2^21 and positions below 16, and every real lane is below the no-merge floor |
| `MergePacked.LaneMinIsFirstLeast` | src/bpe/mod.rs:647-719 | a minimum lane below the floor decodes to the first position of the least rank |
| `MergePacked.MergeShortPacked` | src/bpe/mod.rs:647-719 | the packed-lane merge equals the specified merge for ranks below 2^21 and 2 to 15 symbols |
| `BpeMerge.MergeSymbols` | src/bpe/mod.rs:994-1085 | both sides of the length dispatch leave the specified merge in the array, for explicit ranks and sequences of every length |
| `BpeMerge.MergeSymbolsByRank` | src/bpe/mod.rs:342-446 | the same for a rank lookup alone, for every length that u32 positions allow, none and one included |
| `MergePriority.CheckIdOrder` | src/load_tokenizer/hf.rs:751 | the loader takes the id-priority table exactly when merged ids never decrease along the list |
| `MergePriority.BuildIdMerges` | src/load_tokenizer/hf.rs:753-757 | the id table holds, for every pair of the list, the merged id of its first entry |
| `MergePriority.BuildListMerges` | src/load_tokenizer/hf.rs:760-766 | the ranked table holds, for every pair of the list, the merged id and position of its first entry |
| `MergePriority.SameOrderMerges` | src/bpe/mod.rs:335-446 | tables that order their rules alike and agree on the merged tokens merge every input alike |
| `MergePriority.LoadedMergesInListOrder` | src/load_tokenizer/hf.rs:744-767 | the loaded table merges every input in merge-list order when deciding entries have distinct ids, and also when they share some, are numbered after their parts and do not overlap |
| `MergePriority.StrictIdsAreDistinct` | src/load_tokenizer/hf.rs:744-751 | strictly increasing merged ids pass the test and are distinct |
| `MergePriority.MergeEarly` | src/bpe/mod.rs:335-446 | a pair that no least pair touches, now or later, may be merged at once: the result is the same |
| `MergePriority.NoOverlapMergesAlike` | src/load_tokenizer/hf.rs:744-767 | for a list that passes the test, numbered after its parts and without overlap, id priority and list priority merge every input alike |
| `MergePriority.ContestedAlike` | src/load_tokenizer/hf.rs:751 | on the three tokens of an overlap the two priorities agree if and only if both choices merge on into one token |
| `MergePriority.LoadedInListOrderIffNoOverlap` | src/load_tokenizer/hf.rs:744-767 | among lists that pass the test and number tokens after their parts: every beginning of the list, loaded, merges every input in list order if and only if no two deciding entries i < j share a merged id with the right part of j the left part of i |
| `MergePriority.WholeListInListOrder` | src/load_tokenizer/hf.rs:744-767 | for the whole list alone no overlap suffices, and it is necessary that every overlap joins on into one token |
| `MergePriority.OverlapMayBeHarmless` | src/load_tokenizer/hf.rs:744-767 | a list with an overlap whose two tables merge every input alike: for the whole list the absence of overlaps is not necessary |
| `MergePriority.PartAboveMergesDiffer` | src/load_tokenizer/hf.rs:744-767 | a list without overlap, one part numbered above its merged id, whose two tables merge an input differently |
| `MergePriority.SharedIdMergesDiffer` | src/load_tokenizer/hf.rs:744-767 | a list that passes the non-strict test and an input on which the two priorities give different tokens |
| `Probing.PathsMeet` | src/bpe/mod.rs:203-213 | a walk has one first empty cell |
| `PairRankTable.SlotFields` | src/bpe/mod.rs:139-143 | the packed slot gives back key and value without overlap and is never the empty sentinel, whose key field matches no key |
| `PairRankTable.KeysDiffer` | src/bpe/mod.rs:202 | packed pair keys are injective on ids below 2^21 |
| `PairRankTable.SlotWrite` | src/bpe/mod.rs:202-216 | writing an absent pair into the first empty slot of its walk keeps the slots a complete, loss-free map |
| `PairRankTable.FindSlot` | src/bpe/mod.rs:203-213 | the walk ends in the first empty slot, or gives up exactly when 65 slots of the walk are full |
| `PairRankTable.AddMerges` | src/bpe/mod.rs:198-217 | after all merges, in any order, grid and slots are the merge map; adding gives up only when some of them fill 65 slots of another one's walk |
| `PairRankTable.Build` | src/bpe/mod.rs:157-220 | a table that is built refines the merge map; its slots are a power of two, at least twice as many as merges and 64, and no more than that takes; ids that do not pack yield none, and otherwise only clustering does, which takes more than 65 merges |
| `PairRankTable.HitIsEntry` | src/bpe/mod.rs:238-244 | a slot whose key field matches is the pair's own entry: no collision, no false hit on the sentinel |
| `PairRankTable.Table.Rank` | src/bpe/mod.rs:225-250 | rank answers as the merge map does for every pair of ids below 2^21, in the grid and in the slots, and always ends |
| `SpModel.LeastStoredMerges` | src/bpe/mod.rs:921-1085 | in a run of tokens the adjacent pair of the model's table with the least stored rank, the leftmost of equal ones, is replaced by its stored token, and merging goes on |
| `SpModel.NoneStoredMerges` | src/bpe/mod.rs:921-1085 | a run without a pair of the table stays as it is |
| `SpModel.MergesInListOrder` | src/load_tokenizer/hf.rs:336-365 | a model whose table holds the first entries of a merge list, with ranks growing along it, merges every input in the order of the list |
| `SpModel.FirstCharInit` | src/bpe/sentencepiece.rs:1468-1492 | a character contributes its piece if it has one, or else the tokens of its bytes; a raw space counts as ▁ |
| `SpModel.FallbackPlus` | src/bpe/sentencepiece.rs:1484-1490 | byte fallback goes byte by byte, in order |
| `SpModel.MarkIs` | src/bpe/sentencepiece.rs:1041-1049 | a mark is the ▁ character, and in raw mode a space, and is as wide as it |
| `SpModel.InitSpells` | src/bpe/sentencepiece.rs:1468-1492 | the initial symbols of a covered text spell it with spaces read as ▁ in raw mode |
| `SpModel.InitPlus` | src/bpe/sentencepiece.rs:1468-1492 | character initialisation of a concatenation is the concatenation of the initialisations |
| `SpModel.InitRawIsInitMapped` | src/bpe/sentencepiece.rs:1468-1478 | raw-mode symbols of a text are the normalized-mode symbols of its space-mapped text |
| `SpBoundaries.UnmapSuffix` | src/bpe/sentencepiece.rs:548-557 | a piece part free of ▁ and spaces ends the space-mapped text only where it ends the raw text |
| `SpBoundaries.UnmapPrefix` | src/bpe/sentencepiece.rs:548-557 | the same for what follows the mark, unless the part is cut inside a mark |
| `SpBoundaries.CrossedPieceListed` | src/bpe/sentencepiece.rs:498-545 | every text piece cut before an interior mark is among the listed crossing pieces |
| `SpBoundaries.MarkCutSafe` | src/bpe/sentencepiece.rs:498-557 | no rule joins bytes across a mark that does not extend a run and that no listed crossing piece spans |
| `SpBoundaries.PunctCutSafe` | src/bpe/sentencepiece.rs:462-499 | no rule joins bytes across a byte adjacency that occurs in no vocab piece |
| `SpFinalize.ScanPiece` | src/bpe/sentencepiece.rs:512-542 | the scan of a piece adds each of its interior marks as a pair of parts, and gives up exactly when a part holds a mark or a space or there are more than 32 |
| `SpFinalize.UnitCrossingPieces` | src/bpe/sentencepiece.rs:506-545 | the list is every interior mark of every piece that is text, in order; none is returned exactly when a part is unclean or there are more than 32 |
| `SpFinalize.BuildAdjacency` | src/bpe/sentencepiece.rs:469-474 | a byte pair is recorded exactly when some piece holds it |
| `SpFinalize.SplitTables` | src/bpe/sentencepiece.rs:475-495 | the split bytes are the punctuation that some predecessor makes safe, and the safe predecessors exactly those no piece holds beside it |
| `SpFinalize.FinalizeSpeedPaths` | src/bpe/sentencepiece.rs:415-500 | the mode is EveryMark exactly when the pre-tokenizer splits, and otherwise SpaceRuns exactly when the crossings can be guarded; crossings, split tables and the raw fast path are the specified ones, and the encode loop may rely on them |
| `SpFinalize.RawPathApplies` | src/bpe/sentencepiece.rs:740-763 | the raw fast path applies exactly to models without tokens matched on normalized text whose normalizer is one of three |
| `SpFinalize.RawPrependsSpace` | src/bpe/sentencepiece.rs:402-410 | on the raw fast path decoding strips a leading space exactly for the models whose scheme is not Never |
| `SpEncodeSpec.RawChunkIsMappedChunk` | src/bpe/sentencepiece.rs:1458-1478 | without mandatory splits raw encoding is one global merge of the mark-mapped chunk |
| `SpEncodeSpec.ChunkSpells` | src/bpe/sentencepiece.rs:1458-1492 | the tokens of a chunk spell its mark-mapped text |
| `SpEncodeSpec.ModesAgreeIffNoSpace` | src/bpe/sentencepiece.rs:1362-1365 | byte-equal keys encode alike in raw and normalized mode if and only if they hold no raw space |
| `SpEncodeSpec.UnitCloses` | src/bpe/sentencepiece.rs:1309-1323 | closing a unit at a boundary appends its own merge to the encoding so far |
| `SpEncodeSpec.EncodeTextCut` | src/bpe/sentencepiece.rs:578-587 | an encoding divides at every unit start |
| `SpCache.PackKeyInjective` | src/pretokenize/mod.rs:81-121 | packed keys of 1 to 15 bytes are nonzero and tell the strings apart; longer strings have none |
| `SpCache.MergeUnit` | src/bpe/sentencepiece.rs:1423-1431 | character initialisation and the ranked merge compute the chunk's tokens, for keys of every length |
| `SpCache.EncodeState.constructor` | src/bpe/sentencepiece.rs:926-940 | a fresh state holds no entry and has footprint zero |
| `SpCache.EncodeState.Wipe` | src/bpe/sentencepiece.rs:957-963 | a wipe empties arena, maps and front keys together, so no entry outlives its arena slice |
| `SpCache.EncodeState.Lookup` | src/bpe/sentencepiece.rs:1383-1415 | a lookup answers only with a span that denotes the fresh encoding of the key, front hit or map hit, and reports every stored key |
| `SpCache.EncodeState.Record` | src/bpe/sentencepiece.rs:1433-1452 | recording keeps every front, short and long entry an in-bounds slice equal to the fresh merge of its key, and adds no more than the entry to the footprint |
| `SpCache.EncodeState.Miss` | src/bpe/sentencepiece.rs:1418-1454 | a miss yields the fresh encoding and adds one entry to the caches, emptied first exactly when over budget; afterwards the footprint is within budget, giant-encoding slack and one entry |
| `SpCache.EncodeState.EncodeUnit` | src/bpe/sentencepiece.rs:1367-1454 | cached output is uncached output, across evictions and wipes, with the footprint bound after every call, as long as spans fit their u32 fields |
| `SpUnits.NoSpanInWhole` | src/bpe/sentencepiece.rs:548-557 | a scanner that sees no crossing piece has missed none, also with the virtual prefix in front |
| `SpUnits.MarkStartsUnit` | src/bpe/sentencepiece.rs:1304-1324 | a mark at which the scanner closes a unit starts a unit of the whole text |
| `SpUnits.PunctStartsUnit` | src/bpe/sentencepiece.rs:1325-1345 | so does punctuation behind a safe predecessor |
| `SpUnits.CutsWrittenOut` | src/bpe/sentencepiece.rs:1304-1345 | units are cut at marks that extend no run, or at every mark, wherever no crossing piece spans the mark, and before punctuation behind a byte that no piece holds before it |
| `SpUnits.EncodeUnits` | src/bpe/sentencepiece.rs:1250-1360 | the tokens emitted unit by unit through the cache are one global merge of the mark-mapped chunk (segment by segment where marks always split), for sections of any length |
| `SpUnits.SliceCut` | src/bpe/sentencepiece.rs:1304-1345 | where the scan of a text closes a unit, so does the scan of a slice that holds it: fragments have no longer units |
| `AddedTokens.NextMatch` | src/bpe/sentencepiece.rs:431-440 | the next match starts where the first token occurrence starts and is the longest token there, the first listed of equally long ones; none is found only where no token occurs |
| `AddedTokens.MatchesAreLeftmostLongest` | src/bpe/sentencepiece.rs:1096 | the matches of a text are the one list of leftmost-longest matches without overlap that leaves no occurrence behind the last |
| `AddedTokens.WhitespaceCodePoints` | src/bpe/sentencepiece.rs:1102-1113 | whitespace is the White_Space property, code point by code point |
| `AddedTokens.LeadingWsIsAll` | src/bpe/sentencepiece.rs:1110-1113 | a right strip drops whitespace characters, and all of them |
| `AddedTokens.TrimmedIsAll` | src/bpe/sentencepiece.rs:1102-1105 | so does a left strip, at the end of the text before |
| `AddedTokens.NextMatchInSuffix` | src/bpe/sentencepiece.rs:1091-1096 | the next leftmost-longest match after a point is found alike in the text and in its suffix |
| `AddedTokens.MatchesCut` | src/bpe/sentencepiece.rs:591-594 | at a point no occurrence straddles, the matches of the text are those of its two parts: matching restarts identically |
| `AddedTokens.LeadingWsPrefix` | src/bpe/sentencepiece.rs:1110-1113 | right-stripping inside a fragment sees the same whitespace run when the fragment ends past it |
| `AddedTokens.TrimmedSuffix` | src/bpe/sentencepiece.rs:1102-1105 | left-stripping inside a fragment trims what the whole text trims, down to the cut |
| `SpSections.SectionOfParts` | src/bpe/sentencepiece.rs:447-448 | a model whose pre-tokenizer splits at marks encodes a section as the merges of its parts at every mark past the start, one after the other |
| `SpSections.SectionOfOneMerge` | src/bpe/sentencepiece.rs:1186-1210 | any other model on the raw path encodes a section by one merge of its mark-mapped text, prefix included |
| `SpSections.SectionSpells` | src/bpe/sentencepiece.rs:1196-1208 | scheme by scheme and position by position, the tokens of a section spell its mark-mapped text with a ▁ in front of it or without |
| `SpSections.RawIsMaterialized` | src/bpe/sentencepiece.rs:1126-1180 | the raw fast path emits for every section what the normalizer steps, the pre-tokenizer and the encoding of the normalized text emit |
| `SpSections.EncodeTextMapped` | src/bpe/sentencepiece.rs:1186-1222 | raw encoding of a text is normalized encoding of its mark-mapped text, in both splitting modes |
| `SpSections.RawIsLaidOut` | src/bpe/sentencepiece.rs:1079-1120 | a text is encoded section by section around its leftmost-longest matches, each section ending and starting at the match but for the whitespace the token strips; just the matches inside stripped whitespace are dropped |
| `SpSections.BlocksWrittenOut` | src/bpe/sentencepiece.rs:696-716 | an occurrence keeps cuts from its inside, from whitespace its token strips, and from its end where a prefix would follow |
| `SpFragments.SectionCut` | src/bpe/sentencepiece.rs:1186-1210 | a section divides at a mark cut, prefix decision included; the second part is never prefixed |
| `SpFragments.AroundCut` | src/bpe/sentencepiece.rs:1079-1120 | the chunk-and-match walk over all matches divides at a safe cut, strip rules included |
| `SpFragments.EncodeRawCut` | src/bpe/sentencepiece.rs:578-597 | encoding the part before a safe cut and then the rest as a continuation is encoding the text, for every prepend scheme |
| `SpFragments.SafeCutOfPrefix` | src/bpe/sentencepiece.rs:578-597 | a safe cut of a text is a safe cut of any longer prefix of it |
| `SpFragments.FragmentsEncodeWhole` | src/bpe/sentencepiece.rs:571-577 | encoding any safe fragments, the first as First and the rest as Continuation, and concatenating is encoding the whole text |
| `ByteSearch.FindFrom` | src/bpe/sentencepiece.rs:695-699 | the first occurrence at or after a position, none only if there is none |
| `SpFragmentRanges.SkippedBlocksNoMark` | src/bpe/sentencepiece.rs:667-692 | a skipped added token blocks no mark |
| `SpFragmentRanges.TokenBlocks` | src/bpe/sentencepiece.rs:693-723 | the intervals collected for one token hold exactly the positions its occurrences block, overlapping ones included |
| `SpFragmentRanges.MergeBlocks` | src/bpe/sentencepiece.rs:725-733 | merging sorted intervals leaves them apart and covers the same positions |
| `SpFragmentRanges.AddedTokenCutBlocks` | src/bpe/sentencepiece.rs:681-735 | sorted, disjoint intervals that hold exactly the marks a cut may not take, and no position that nothing blocks |
| `SpFragmentRanges.NextCut` | src/bpe/sentencepiece.rs:619-648 | the probing loop takes the first safe cut at or after the probe, and none only if there is none |
| `SpFragmentRanges.SafeFragmentRanges` | src/bpe/sentencepiece.rs:600-660 | for every target the ranges partition the text at safe cuts, each cut the first safe one at least `target` bytes behind the one before and none left in the last range; an empty text keeps one empty range |
| `SpEncode.EncodeChunkRaw` | src/bpe/sentencepiece.rs:1186-1210 | a section through the cache gives the section's encoding |
| `SpEncode.EncodeRawFrom` | src/bpe/sentencepiece.rs:1079-1120 | sections through the cache with matched tokens in between give the specified encoding of the text, whatever its length |
| `SpEncode.EncodeInFragments` | src/batch.rs:841-850 | a document encoded range by range, each with a cache of its own, gives the tokens of encoding it in one call, for every target |
| `SpRoundTrip.ReplaceMarksFaithful` | src/bpe/sentencepiece.rs:818-832 | replacing ▁ by a space changes a text exactly when it holds a literal ▁ |
| `SpRoundTrip.EncodeTextSpells` | src/bpe/sentencepiece.rs:1186-1210 | the tokens of a section spell its mark-mapped text, however it is split |
| `SpRoundTrip.RoundTrip` | src/bpe/sentencepiece.rs:818-832 | decoding the encoding of a text without added-token match, the empty one included, gives the text back if and only if it has no literal ▁ and no leading space that decoding strips without encoding having put one |
| `SpRoundTrip.UnguardedRoundTrip` | src/bpe/sentencepiece.rs:818-832 | under the unconditional prefix every text without literal ▁ and without added-token match comes back, the empty one included |
| `Gather.ClaimInv` | src/batch.rs:578-588 | claiming an index keeps the invariant |
| `Gather.PublishInv` | src/batch.rs:589-594 | publishing keeps it: the claimed slot was empty |
| `Gather.AcquireInv` | src/batch.rs:418-421 | so does trying the lock |
| `Gather.DrainInv` | src/batch.rs:426-446 | so does each round of the drain: the flat prefix is the concatenation of the first chunks, and no write passes the reservation |
| `Gather.HolderCommits` | src/batch.rs:418-446 | a worker takes the lock when it is free, and then commits every published chunk of the prefix that fits, up to eight |
| `Gather.TriesTheLock` | src/batch.rs:572-601 | with a reservation a worker tries the lock after every chunk and on its way out; without one it never does |
| `Gather.TooLongStops` | src/batch.rs:432-437 | a published chunk that does not fit ends committing for good |
| `Gather.RunInv` | src/batch.rs:387-518 | the invariant holds in every state of every run, for any number of workers and any interleaving |
| `Gather.RunsTerminate` | src/batch.rs:575-598 | no run is longer than the initial measure |
| `Gather.RunsFinish` | src/batch.rs:572-601 | every run can be continued until all workers have left, within the steps its initial measure allows |
| `Gather.AllEncodedOnce` | src/batch.rs:589-602 | when all workers have left, every chunk has been encoded exactly once and published |
| `Gather.OverflowMeansTooLong` | src/batch.rs:434-437 | committing is given up only if the total exceeds the reservation |
| `Gather.Finish` | src/batch.rs:454-518 | the uncommitted suffix copied behind the committed prefix is the concatenation; none exactly on overflow or a total above the reservation |
| `Gather.GatherFlat` | src/batch.rs:627-648 | the plain gather is the concatenation in one fresh buffer |
| `Gather.Collect` | src/batch.rs:599-612 | from the end of any run the result is the in-order concatenation, on the commit, refused-reservation and overflow paths alike |
| `DocChunks.PushFragmentChunks` | src/batch.rs:261-287 | the pieces of a document, big over its head and split again behind it when they are long, are pushed as fragments, the first one flagged, and add its one row |
| `DocChunks.BuildDocChunks` | src/batch.rs:190-249 | for both sizings and every target the chunks are the documents in order, those over twice the target in fragments of which the first is flagged, and stand for their rows; every group stops at the document that reaches its goal, or before fragments or the end; every document in fragments is cut as specified |
| `DocChunks.ContinuesARow` | src/batch.rs:306-311 | a continuation always has a row to extend: the expectation never fails |
| `DocChunks.RowCounts` | src/batch.rs:302-316 | the counts are the lengths of the document rows |
| `DocChunks.IdsAreRows` | src/batch.rs:537-548 | the chunks' ids in order are the rows' ids in order |
| `DocChunks.GatheredMatchesSerial` | src/batch.rs:791-809 | ids and row counts of built chunks are those of the serial encode |
| `SpChunks.PiecesAreFragments` | src/batch.rs:841-848 | encoding the pushed pieces is encoding the fragments |
| `SpChunks.SafePieces` | src/batch.rs:841-848 | the pieces between safe ranges encode to what the document encodes to |
| `SpChunks.SpBuildChunks` | src/batch.rs:827-862 | chunks of SentencePiece documents are the documents in order, on the raw fast path those over twice the target in fragments, and stand for their rows; every group stops at the document that reaches the target, or before fragments or the end |
| `Common.TargetIs` | src/batch.rs:30-34 | the chunk size is a sixteenth of each thread's share of the bytes, rounded down, and never below 2^20 |
| `ParallelEncode.EncodeDocsSerial` | src/batch.rs:791-811 | the serial loop gives all documents' ids in order and their row lengths |
| `ParallelEncode.EncodeChunksGathered` | src/batch.rs:550-613 | for every schedule of the workers, with the reservation granted or refused, kept or overrun, ids and counts are those of the chunks in order |
| `ParallelEncode.EncodeDocsRagged` | src/batch.rs:760-780 | parallel encoding gives the ids and row lengths of encoding one document after the other, for every schedule, number of threads and LPT setting |
| `ParallelEncode.SpEncodeDocsRagged` | src/batch.rs:867-915 | the same for SentencePiece documents, oversized ones cut at safe ranges |
| `ParallelEncode.DocsByFormat` | src/batch.rs:76-97 | a region holds the texts of its JSON lines up to the first that does not parse, or the pieces between separators, or is one document; the empty separator separates nothing |
| `ParallelEncode.RegionsReadSerially` | src/batch.rs:76-97 | the regions of a file hold the documents of the file: for JSON lines exactly when no region yields anything after one that fails, for text whenever the separator has no border |
| `ParallelEncode.EncodeFilesDocs` | src/batch.rs:938-961 | ids and row lengths are those of the regions' documents in order, and those of the serial call wherever the regions hold the files' documents |
| `ParallelEncode.SpEncodeFilesDocs` | src/batch.rs:992-1035 | the same for SentencePiece files |
| `TrainerWords.OccMergeAt` | src/bpe_train.rs:39-51 | one merge changes every pair's occurrences by what is recorded, and the merged pair's by one more |
| `TrainerWords.ReplacePairs` | src/bpe_train.rs:31-54 | replacing brings only pairs with the new symbol and leaves none of the replaced pair |
| `TrainerWords.UpdateWord` | src/bpe_train.rs:31-54 | the in-place loop leaves the word with the pair replaced leftmost first; recorded changes are exactly the changes of the occurrences; for a positive count every pair now present was there before or is recorded as gained |
| `TrainerWords.ZeroCountListsNothing` | src/bpe_train.rs:76-122 | a word counted zero times would have a new pair queued that it is not listed under: training needs positive counts |
| `TrainerUpdate.CountPairs` | src/bpe_train.rs:19-29 | the counts are the weighted occurrences, with an entry exactly for pairs that occur |
| `TrainerUpdate.Record` | src/bpe_train.rs:99-105 | the callback sums changes and lists the word under every gained pair |
| `TrainerUpdate.MergeIndex` | src/bpe_train.rs:127-130 | gained entries are added to the index, nothing is removed |
| `TrainerUpdate.UpdateWords` | src/bpe_train.rs:69-133 | for the listed words in any order: every word has the pair replaced, the changes are those of a fresh count and a function of the words alone, and the index still lists every word under every pair it contains |
| `TrainerTies.CodepointInjective` | src/bpe_train.rs:164-175 | no two bytes share a ByteLevel codepoint |
| `TrainerTies.CodepointIs` | src/bpe_train.rs:164-175 | printable bytes are their own characters, the other 68 are U+0100 to U+0143 in order |
| `TrainerTies.BuildByteToHfRank` | src/bpe_train.rs:164-186 | the rank table is a permutation of the bytes ordered by codepoint |
| `TrainerTies.TieKeyInjective` | src/bpe_train.rs:267-291 | the remap tells every two ids apart |
| `TrainerTies.ChoosePair` | src/bpe_train.rs:255-312 | the chosen pair has maximal priority and is the unique least among the ties; the queue loses it and nothing else |
| `TrainerReplay.LeftmostIsLeast` | src/bpe/mod.rs:313-333 | the leftmost occurrence of the first merge that still applies is what lowest-merged-id-first merges next |
| `TrainerReplay.ReplaceIsMerging` | src/bpe/mod.rs:313-333 | replacing one merge throughout is what the merge loop does next |
| `TrainerReplay.ReplayIsMergeAll` | src/bpe_train.rs:328-333 | replacing the merges one after the other is merging lowest merged id first, repeated merges included |
| `Trainer.TopIsBest` | src/bpe_train.rs:255-312 | the queue's top is the pair a fresh count of all words ranks first, or no pair is left; a positive top has never been merged |
| `Trainer.BestWrittenOut` | src/bpe_train.rs:255-291 | the best pair is the most frequent one, and among equally frequent ones the least by its first id and then its second, bytes by codepoint or by value and before all other ids |
| `Trainer.TopWrittenOut` | src/bpe_train.rs:255-312 | so is the top of the queue, by priority |
| `Trainer.ReplacedCount` | src/bpe_train.rs:328-333 | a merged pair never occurs again |
| `Trainer.Requeued` | src/bpe_train.rs:335-340 | after the update every unmerged pair's priority is again its fresh count, merged pairs have true count zero, and every queued pair is indexed, so the lookup never misses |
| `Trainer.ApplyChanges` | src/bpe_train.rs:335-340 | priorities move by the changes, absent pairs are pushed |
| `Trainer.BuildIndex` | src/bpe_train.rs:197-220 | every word is listed under every pair it contains |
| `Trainer.LearnedConsistent` | src/bpe_train.rs:315-326 | the learned merge table is byte-consistent |
| `Trainer.WordSpelled` | src/bpe_train.rs:197-212 | a training word starts as its bytes, and the tokens it is left with spell it by the returned table |
| `Trainer.Train` | src/bpe_train.rs:188-351 | every merge is the top of the queue as the words and merges before determine it, and the best pair of a recount from scratch while pairs remain; the loop stops at the vocabulary size or when the queue is empty; every learned token spells its parts, and the tokens left of a training word spell the word; every training word is left as lowest-merged-id-first merging of its bytes gives it |
| `Trainer.EncoderRedoesTraining` | src/bpe/mod.rs:313-333 | encoding a training word with the learned ids gives the trainer's own segmentation of it |
| `TrainerOrder.PairCountShuffled` | src/bpe_train.rs:19-29 | pair counts do not depend on the order of the words |
| `TrainerOrder.ReplaceShuffled` | src/bpe_train.rs:87-125 | updating words in another order gives the same words |
| `TrainerOrder.ChangesShuffled` | src/bpe_train.rs:87-125 | the changes a merge records do not depend on the order of the words |
| `TrainerOrder.SameQueue` | src/bpe_train.rs:197-340 | words in another order bring the same queue through the same merges, used-up pairs included |
| `TrainerOrder.CorpusOrderDoesNotMatter` | src/bpe_train.rs:188-351 | trainings on one corpus in different orders learn the same merges and the same table, to the last one, also when used-up pairs are merged again |
| `PretokenSlots.FirstEmptyUnique` | src/bpe/pretoken_cache.rs:245-254 | the first empty slot of a walk is unique: a miss slot is what first_empty finds |
| `PretokenSlots.WriteAbsent` | src/bpe/pretoken_cache.rs:295-306 | writing an absent key into the first empty slot of its walk adds it to the map |
| `PretokenSlots.WritePresent` | src/bpe/pretoken_cache.rs:337-346 | overwriting a key's own slot changes its value and nothing else |
| `PretokenSlots.WalkStep` | src/bpe/pretoken_cache.rs:257-275 | a full pair without the key is passed over; a pair with an empty slot ends the walk of an absent key only |
| `PretokenSlots.SomeRoom` | src/bpe/pretoken_cache.rs:278 | below a full load some pair has an empty slot, so every walk ends |
| `PretokenCache.LoadLimit` | src/bpe/pretoken_cache.rs:297-299 | another entry fits exactly as long as it fills at most three quarters of the slots |
| `PretokenCache.RequiredCapacity` | src/bpe/pretoken_cache.rs:186-192 | the least power of two that holds n entries below 3/4, the asked slots and the floor |
| `PretokenCache.ShortPretokenCache.WithPow2Capacity` | src/bpe/pretoken_cache.rs:165-168 | a new table is the empty map |
| `PretokenCache.ShortPretokenCache.GetOrSlot` | src/bpe/pretoken_cache.rs:255-276 | a hit exactly for the keys of the map, with their value; a miss reports the first empty slot of the walk |
| `PretokenCache.ShortPretokenCache.FirstEmpty` | src/bpe/pretoken_cache.rs:279-293 | the walk ends in its first empty slot |
| `PretokenCache.ShortPretokenCache.Insert` | src/bpe/pretoken_cache.rs:297-306 | the map gains the key; the table doubles exactly when the load would pass 3/4 |
| `PretokenCache.ShortPretokenCache.InsertAt` | src/bpe/pretoken_cache.rs:312-323 | the same with the slot a miss reported, recomputed after growing |
| `PretokenCache.ShortPretokenCache.Replace` | src/bpe/pretoken_cache.rs:331-354 | the key takes the new value whether it was there or not |
| `PretokenCache.ShortPretokenCache.Grow` | src/bpe/pretoken_cache.rs:357-372 | twice the slots, the same map |
| `PretokenCache.ShortPretokenCache.Clear` | src/bpe/pretoken_cache.rs:197-201 | the empty map in the same allocation |
| `PretokenCache.ShortPretokenCache.ResetToCapacity` | src/bpe/pretoken_cache.rs:205-217 | the empty map with exactly the asked slots, the allocation kept when it fits |
| `PretokenCache.ShortPretokenCache.ProbePair` | src/bpe/pretoken_cache.rs:432-495 | for a nonzero key, found exactly when the key sits in its home pair, and then with its value |
| `PretokenCache.Seeded` | src/bpe/pretoken_cache.rs:170-182 | a table made for n entries takes up to n of them without growing, first entry of equal keys winning |
| `Documents.DocsCut` | src/input/mod.rs:196-216 | for a border-free separator the documents of a buffer divide at any occurrence of it |
| `Documents.DocumentIter.Next` | src/input/mod.rs:180-219 | each call yields the first remaining document, none exactly when none remain |
| `Documents.DocumentIter.Collect` | src/input/mod.rs:177-219 | iterating to the end yields all documents, in order |
| `DocumentChunks.ChunkRanges` | src/input/file_source.rs:156-206 | the loop computes the regions the theorems are about, one empty region for an empty file |
| `DocumentChunks.ChunksDiffer` | src/input/file_source.rs:189-196 | for every separator with a border and every region size, a buffer whose regions give other documents than the serial iteration |
| `DocumentChunks.ChunkedIsSerialIffBorderFree` | src/input/file_source.rs:189-196 | at every region size of at least one byte, region-wise iteration equals serial iteration for every buffer if and only if the separator is border-free |
| `DocumentChunks.ReadIsSerialIffBorderFree` | src/batch.rs:938-961 | the same at the region size the program takes for the buffer, for every number of threads |
| `DocumentChunks.FindBoundaries` | src/input/mod.rs:236-256 | strictly increasing boundaries: the start, and the place behind the first separator from every target on |
| `DocumentChunks.ParDocumentChunks` | src/input/mod.rs:227-263 | monotone boundaries that partition the buffer for every n; for a border-free separator the iterators together yield the documents of one iterator |
| `JsonLines.JsonLinesSlice.Next` | src/input/jsonl.rs:27-51 | each call yields the text of the first remaining line; none when no line is left or the line does not parse |
| `JsonLines.ChunkedIsSerialIffFailsOut` | src/input/file_source.rs:185-188 | of one buffer at one region size: region-wise reading equals serial reading if and only if every region after one with a line that does not parse begins with such a line or has none |
| `JsonLines.ChunkedIsSerialIffNotMixed` | src/input/file_source.rs:185-188 | at every region size, for every buffer, if and only if the parser does not fail on some line and accept another |
| `JsonLines.ReadIsSerialIffNotMixed` | src/batch.rs:938-961 | the same at the region size the program takes for the buffer, for every number of threads |

## Left out

- Normalizers other than the raw fast path (`PrecompiledCharsmap`, Strip, NFC, regex replacement), and added
  tokens matched on normalized text: they depend on Unicode tables that are not part of this model.
- `WordSplit::None` models encode a chunk by one merge (`bpe_chunk`); the raw fast path never applies to them.
- SIMD block scanning, prefetching, huge pages, inline assembly and allocator layout: candidates are found by a
  scalar scan and slots are an array.
- The AVX and NEON merge cores differ in how they find the minimum lane; one packed-lane scan stands for them.
- MergeScan.MergeScanned: stands for the small, the short scalar and the ranked-slice scan, which differ in array
  capacity and in where ranks come from.
- MergeHeap.MergeWithHeap: stands for the rank-lookup heap of packed u64 entries and the explicit-rank heap of (rank,
  usize) pairs, told apart by the number that is no position; a pair is the number that stands for it in the order of
  pairs. The binary heap is a multiset whose pop removes a least entry.
- SpRoundTrip.RoundTrip: byte spellings that are not valid UTF-8 are outside the statement; the encoder's own
  spellings are proved valid, and the lossy decoding of others is not part of this model.
- SpCache.EncodeState.EncodeUnit: the hash maps are maps, and the front-cache index is any function into the table.
- SpFragmentRanges.AddedTokenCutBlocks: the per-token scans are taken one after the other, in the order of the
  tokens; the sort is an insertion sort.
- Gather.RunInv: chunk outputs are values; panics, lock poisoning and the order of relaxed atomics beyond the
  claimed index are not modelled.
- DocChunks.BuildDocChunks: the byte-level splitter `safe_split_ranges` is a function with the contract stated
  above.
- ParallelEncode.EncodeFilesDocs: a region is a chunk that holds its documents.
- TrainerWords.UpdateWord: the recording callback is the list of its calls; the words are values updated in an
  array.
- TrainerTies.ChoosePair: `AssembledBytes` tie-breaking, under which two pairs can assemble to equal strings, so
  that the choice depends on the iteration order.
- Counts and offsets are unbounded integers; overflow of `isize` counts is not modelled.
- PretokenCache.ShortPretokenCache.GetOrSlot: keys, values and hashes are numbers, the hash is any function of the
  key, and masking with a power of two less one is the remainder.
- `SeparatorReader` (`src/input/file_source.rs:335-418`): its `next` clears the buffer that holds the remainder of
  the read before, so it does not refine the document iterator.
- JsonLines.JsonLinesSlice.Next: JSON parsing is any function from lines to texts.
- Python bindings, command line, downloads, Parquet, compressed and memory-mapped files, format detection, and
  `pad_truncate_matrix`: interface code or easy members.
- Pretokenization and tiktoken-style vocabularies beyond the merge loops.
