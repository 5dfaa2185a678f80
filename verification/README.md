# A verified model of the HolyCRT core

HolyCRT is the part of TempleOS that this repository runs in Linux user space. The project models
its algorithms in Dafny, keeps the form of the original (objects whose methods change them in place,
loops over cursors), and proves what they are for. `dafny verify dfyconfig.toml` checks everything.

What is modelled, and the main results:

- **Archives** (`Bits`, `BitFields`, `ArcTrie`, `ArcCodec`, `ArcRoundTrip`, `ArcBuffers`, `ArcPhrases`,
  `ArcExact`, `ArcFindings`, `ArcCtrl`, `Compress`). The LZW coder and decoder with their growing codes,
  the one-entry delay, and the recycling of leaves once the table is full. `CArcCtrl` is the control block as an object; its methods
  are proved equal to functions, and the functions are proved to be inverse to each other: compressor
  and expander run in lock step, every code included that names an entry not filled yet. Which code a string
  gets, and which one a full table recycles, is told without the table (`ArcPhrases.NextNumbered`,
  `ArcTrie.RecyclesNearest`).
  Every input comes back but for two lengths (`ArcExact.OtherLengthsComeBack`), and
  `ArcExact.RoundTrip` says exactly which inputs of these lengths do not.
- **FAT32** (`FatBlk`, `FatSpec`, `FatAlloc`, `Fat32`). Cluster chains over a one-sector write-back
  cache and two copies of the table. Allocation delivers chains of distinct free clusters on the volume if
  and only if there are enough, the next ones in the order of the scan; freeing ends on every table, and keeps the copies equal if and only if the chain
  settles in its last sector.
- **RedSea** (`FileNames`, `RedSeaFree`, `RedSeaAlloc`, `RedSeaDir`, `RedSea`, `RedSeaRuns`). Bitmap, free list,
  contiguous runs and a root directory that grows by moving. Free list and bitmap always agree, all runs in use are
  disjoint, and a file written reads back while every other file reads as before and every other entry,
  file or directory, is still found. Whether a write
  succeeds is told exactly by the free list and the directory before it.
- **The heap** (`ListBags`, `MemPool`, `HeapSpec`, `Heap`, `TaskHeaps`). The page pool with its lists by
  size, and MAlloc and Free above it. Over every run blocks never overlap, live objects never overlap,
  be they of one task's heap or of two on the same pool, and the counters equal what is in use. What is
  free before a call tells exactly whether it fails and what it hands out, and what is given back can be had
  again.
- **The disk cache** (`DskCache`). Replacement queue and hash buckets over several drives. Whatever it
  holds, a read returns what the device has; what goes is what was used least recently.
- **Jobs** (`JobServer`). The server task of a core and the tasks that post to it and collect results,
  as atomic steps interleaved in any order, each step one locked instruction or one access under a lock.
  Each job is in exactly one place, jobs are served in the order posted, and no wakeup is lost exactly if all
  job codes are known ones.
- **Loading** (`BinPatch`, `ElfConvert`, `KLoadSpec`, `LoadMeaning`, `KernelLoad`, `KLoad`). Late binding of
  imports leaves the same bytes in any order of loading, and every field leads to its symbol; a module converted to an ELF object and linked is the module loaded
  directly, exactly if no relocation was left out or nothing is added to it.
- **Tabs** (`StrTabs`). Compressing spaces to tabs, also in place, changes nothing on the screen and
  leaves a string as short as any that looks the same.
- **Sorting** (`QSort`). The unguarded inner scans stay inside the segment, and the result is a sorted
  permutation, for words and for elements of any width.

Constants that the sources fix are the sources' own (`HolyCRT/KernelA.HH`): 12-bit codes, 512-byte
pages and blocks, 64-byte directory entries, 0x0FFFFFFF as end mark.

Places where the code does something its callers would not expect. Each has a theorem that says
exactly when, and an input that shows it:

- The compressor reserves room for its last code at the current width, but the expander reads it at the
  next one. If the fields have just widened and the destination is exactly full, one bit past the
  destination is read. This takes 128 characters of seven-bit text in which no pair of neighbours comes
  twice, or 288 bytes that fall into 256 phrases with a single character last (`ArcExact.MisreadExactly`,
  `ArcExact.SevenBitFit`; inputs in `ArcFindings.MisreadHappens` and `ArcFindings.WideMisread`).
- FAT32AllocClus leaves its last pick looking free until it is linked. One cluster short, it can pick it
  twice and still report success (`FatAlloc.AllocSucceeds`, `FatAlloc.AllocExact`; input in
  `FatAlloc.SilentShortfall`). It also never picks the last cluster of a volume, which
  FAT32AllocContiguousClus does (`Fat32.Fat32Drv.LastSkipped`; tables in `Fat32.Fat32Drv.OnlyLastFree`).
- FAT32FreeClus starts its pass over the second copy with the cached sector of the first. A chain that
  leaves that sector and comes back keeps links in the second copy (`FatSpec.CopiesAgree`; inputs in
  `FatSpec.CopiesDiffer` and, straight from an allocation, `FatAlloc.WrappedDiffers`).
- RedSeaDirNew frees the directory's run before it looks for a longer one. If none is found, the
  directory stays in blocks marked unused (`RedSea.RedSeaDrv.GrowRoot`, `RedSea.RedSeaDrv.RedSeaFileWrite`;
  a run in `RedSeaRuns.DirectoryLost`). RedSeaFilesDel treats a name that begins with '!' as a mask
  turned round and skips names with a leading dot, so such a file is not deleted before it is written
  again; it is then replaced in its slot.
- RedSeaFileWrite deletes the old file before it looks for space for the new one. If there is none, the
  old file is lost, unless its name begins with '.' or '!' (`RedSea.RedSeaDrv.RedSeaFileWrite`; a run in
  `RedSeaRuns.FileLost`).
- A request to the page pool for less than 256 pages is never met from a freed block of 256 to 1025 pages. It
  can be out of memory while such blocks are all that is free (`MemPool.CBlkPool.ShortFailsExactly`; a run in
  `MemPool.ShortStarves`).
- JobRunOne leaves a job with a code it does not know at the head of the queue and the server goes to
  sleep (`JobServer.WakeupLostExactly`; run in `JobServer.LostWakeup`). JobQue does not wake it any more,
  for it clears the flag only when the queue is empty (`JobServer.LostForGoodExactly`).
- The ELF conversion leaves out relocations in 16-bit code with a large addend
  (`ElfConvert.LinkedIsDirect`; input in `ElfConvert.RelocationLost`).

## Model

| member | source | states |
|---|---|---|
| `Bits.OrThenExt` | HolyCRT/KUtils.HC:153-182 | a field ORed into clear bits reads back as the number written, and no bit outside the field changes |
| `Bits.ExtOfNumBits` | HolyCRT/KUtils.HC:166-182 | a run of bits that spells a number extracts to that number |
| `Bits.ExtSplitTop` | HolyCRT/KUtils.HC:166-182 | reading one bit more adds exactly that bit's weight: what a code read one bit too wide comes to |
| `BitFields.OrInWord` | HolyCRT/KUtils.HC:153-165 | the eight bytes at p / 8 as one little-endian word, ORed with the value shifted by p % 8 and stored back, are bit by bit the field ORed in at p; nothing is shifted out |
| `BitFields.ExtOfWord` | HolyCRT/KUtils.HC:166-182 | that word shifted right and masked is the field read bit by bit, up to 32 bits |
| `BitFields.BFieldOr` | HolyCRT/KUtils.HC:153-165 | on memory of bytes the routine ORs the field in at bit p and changes no other bit, given the eight bytes it touches |
| `BitFields.BFieldExt` | HolyCRT/KUtils.HC:166-182 | on memory of bytes the routine returns the field of w bits at bit p |
| `ArcTrie.UnlinkRemovesOne` | HolyCRT/Compress.HC:29-36 | taking an entry out of its base's list removes that entry and nothing else |
| `ArcTrie.LeafAfterFinds` | HolyCRT/Compress.HC:24-26 | the recycling search stops at a childless entry no farther on than any childless entry in range |
| `ArcTrie.RecycleFindsLeaf` | HolyCRT/Compress.HC:23-28 | in a full table the search ends on a childless entry that is not the one about to become current |
| `ArcTrie.GetTakes` | HolyCRT/Compress.HC:6-40 | told from the lists of children alone: a growing table hands out its entries in order, and the fields get wider when the width can name no more; a full one takes the nearest childless entry after the one recycled last, once round, passing over none |
| `ArcTrie.RecyclesNearest` | HolyCRT/Compress.HC:23-28 | the string a full table forgets goes on to no other known string, and each entry passed over on the way stands for one that does |
| `ArcTrie.LeafAhead` | HolyCRT/Compress.HC:23-28 | a childless entry always stands between the search's start and the entry about to become current, so the unbounded loop ends |
| `ArcTrie.LeafHasNoChildren` | HolyCRT/Compress.HC:26 | an empty child list means no live code has the entry as its base |
| `ArcTrie.GetKeepsInv` | HolyCRT/Compress.HC:6-40 | ArcEntryGet keeps the trie invariant over growing and recycling; the next entry becomes current at the next width, and only the new next entry can lose its meaning |
| `ArcTrie.FillKeepsInv` | HolyCRT/Compress.HC:140-146 | filling the current entry with a live base and a character keeps the invariant, and gives the entry the base's string and the character |
| `ArcTrie.LengthBound` | HolyCRT/Compress.HC:191-201 | no live code's string is longer than the table's entries plus one, so the decoder's stack of 4096 bytes holds it; every live code fits the current width |
| `ArcTrie.NewInv` | HolyCRT/Compress.HC:221-242 | a new control block meets the invariant with exactly the single characters live |
| `ArcCodec.ChildInList` | HolyCRT/Compress.HC:129-135 | the child search returns a child with the wanted character, and fails only if there is none |
| `ArcCodec.WalkRest` | HolyCRT/Compress.HC:126-135 | the longest match consumes a prefix of the input |
| `ArcCodec.DrainInPieces` | HolyCRT/Compress.HC:171-219 | what waits on the stack can be put out in two calls with the same result |
| `ArcRoundTrip.WalkSpells` | HolyCRT/Compress.HC:126-135 | the code the match ends on spells the pending string followed by the input consumed |
| `ArcRoundTrip.TurnWritesField` | HolyCRT/Compress.HC:124-138 | a turn changes no bit outside the field the loop tested room for, even when the fields widen in between |
| `ArcRoundTrip.TurnKeepsLive` | HolyCRT/Compress.HC:124-149 | a turn of the compressor keeps trie, strings and pending code in step, and moves the position on |
| `ArcRoundTrip.EncodeKeepsLive` | HolyCRT/Compress.HC:124-152 | a whole compression keeps them in step and touches no bit before its start, past the end of the destination or past the position reached |
| `ArcRoundTrip.SpellIsString` | HolyCRT/Compress.HC:196-201 | walking up the base codes yields the string a live code stands for |
| `ArcRoundTrip.NextStringIsString` | HolyCRT/Compress.HC:191-201 | a code the compressor may send yields its string in the expander, also the code of the entry not filled yet (previous string and its first character) |
| `ArcRoundTrip.CodeReadsBack` | HolyCRT/Compress.HC:137-138 | the expander reads each code at the width and place the compressor wrote it |
| `ArcRoundTrip.FollowCode` | HolyCRT/Compress.HC:187-201 | paired with a compressor, the expander meets its code and gets the characters it consumed |
| `ArcRoundTrip.FollowOn` | HolyCRT/Compress.HC:187-215 | lock step: after a code both hold the same trie, current entry and widths, one code further on |
| `ArcRoundTrip.FollowStep` | HolyCRT/Compress.HC:187-215 | and the expander has put out the characters the compressor took in for it |
| `ArcRoundTrip.LastCode` | HolyCRT/Compress.HC:155-163 | the last code reads back as written, plus the weight of the bit past the destination when the fields have widened and that bit is read |
| `ArcRoundTrip.UnfilledSpellsZeros` | HolyCRT/Compress.HC:191-201 | a code with that extra bit names an entry never filled, and yields two zeros |
| `ArcRoundTrip.Follow` | HolyCRT/Compress.HC:165-219 | by induction over the input the expander's loop puts out the pending character and all input still unread |
| `ArcBuffers.PackedFits` | HolyCRT/Compress.HC:292-297 | the compressed bytes copied out are at most one byte more than the destination has |
| `ArcBuffers.ThrowsExactly` | HolyCRT/Compress.HC:255-257 | an archive is refused if and only if its type is not one of the three or it says it is longer than mapped memory |
| `ArcBuffers.ExpandOfCompress` | HolyCRT/Compress.HC:250-308 | for every input and every memory past the buffer, expanding the archive gives the input, except that a misread last code turns the last byte into zero |
| `ArcPhrases.WalkIsUnread` | HolyCRT/Compress.HC:126-135 | while the table forgets nothing, the match through the table reads as far as a set of known strings says |
| `ArcPhrases.NextPhrase` | HolyCRT/Compress.HC:124-149 | a turn of the compressor takes the next phrase of LZW as usually told and learns the phrase with the character after it |
| `ArcPhrases.NewNumbered` | HolyCRT/Compress.HC:221-242 | in a new block the codes are the single characters, and the next number is the first one past them |
| `ArcPhrases.NextNumbered` | HolyCRT/Compress.HC:124-149 | while the table grows, a turn writes at the current position the code of the phrase it takes, and the phrase with the character after it gets the next number: codes are numbered in the order their strings are learnt |
| `ArcPhrases.CodesArePhrases` | HolyCRT/Compress.HC:124-152 | a compression that uses up its input right after a code, at its first width, has put out one code for each phrase but the last, a single character |
| `ArcPhrases.PhrasesAreCodes` | HolyCRT/Compress.HC:124-152 | the other way round: phrases few enough for the first width and with room for a code each come out one by one, and the input ends right after a code |
| `ArcExact.TurnPlaced` | HolyCRT/Compress.HC:124-149 | until the widest fields are in use the position is a fixed function of the next free entry and the width |
| `ArcExact.WidensInStep` | HolyCRT/Compress.HC:155-163 | the widened field can pass the end of the destination only at the first widening, with 128 characters of seven-bit text or 288 other bytes |
| `ArcExact.MisreadExactly` | HolyCRT/Compress.HC:155-163 | the last code is misread if and only if the input, from its length and phrases alone, ends where the fields widen, and the bit of memory past the destination is set |
| `ArcExact.SevenBitFit` | HolyCRT/Compress.HC:155-163 | seven-bit text ends there if and only if it has 128 characters and no two of its 127 neighbouring pairs are alike |
| `ArcExact.RoundTrip` | HolyCRT/Compress.HC:250-308 | ExpandBuf(CompressBuf(s)) == s if and only if not all of this holds: s ends where the fields widen, its last byte is not zero, and the bit past the destination is set |
| `ArcExact.OtherLengthsComeBack` | HolyCRT/Compress.HC:250-308 | every input of any length but 128 (seven-bit) or 288 (other bytes) comes back, whatever memory holds |
| `ArcExact.SafeExactly` | HolyCRT/Compress.HC:250-308 | the inputs that come back for every content of memory are exactly those that do not end where the fields widen or end in a zero byte |
| `ArcFindings.MisreadHappens` | HolyCRT/Compress.HC:155-163 | the concrete failure: the 128 seven-bit characters in order, with the bit past the destination set, come back with a zero in place of the last |
| `ArcFindings.WideMisread` | HolyCRT/Compress.HC:155-163 | the second length is needed: a concrete input of 288 bytes that does not come back when the bit is set |
| `ArcFindings.ExpandInPieces` | HolyCRT/Compress.HC:165-219 | expanding n characters and then m more on one control block gives what n + m at once gives |
| `ArcCtrl.CArcCtrl.constructor` | HolyCRT/Compress.HC:221-242 | ArcCtrlNew gives the fresh trie, no saved code, an empty stack of 4096 bytes when expanding |
| `ArcCtrl.CArcCtrl.EntryGet` | HolyCRT/Compress.HC:6-40 | ArcEntryGet in place does to the trie what Get says; with the table full, the new next entry is the nearest childless one after free_idx, and free_idx moves there |
| `ArcCtrl.CArcCtrl.FindLeaf` | HolyCRT/Compress.HC:24-26 | the do-while search ends and finds what LeafAfter says, given that a leaf exists |
| `ArcCtrl.CArcCtrl.UnlinkEntry` | HolyCRT/Compress.HC:29-36 | the list walk takes the entry out of its base's list and leaves all other lists |
| `ArcCtrl.CArcCtrl.CompressFrom` | HolyCRT/Compress.HC:124-152 | ArcCompressBuf in place reaches the trie, bits, position and pending code of Encode |
| `ArcCtrl.CArcCtrl.LongestMatch` | HolyCRT/Compress.HC:126-135 | the inner loop finds the match of Walk and reports when the input ran out inside it |
| `ArcCtrl.CArcCtrl.OneTurn` | HolyCRT/Compress.HC:124-149 | one turn of the loop is Turn |
| `ArcCtrl.CArcCtrl.Drain` | HolyCRT/Compress.HC:174-175 | characters leave the stack top first and land in order in the destination, which is otherwise unchanged, until one of them runs out |
| `ArcCtrl.CArcCtrl.PushString` | HolyCRT/Compress.HC:196-201 | the code's string lies on the stack, above what was there, and the last character kept is its first |
| `ArcCtrl.CArcCtrl.OneCode` | HolyCRT/Compress.HC:188-211 | one code in place: stack, trie, last character, saved code and source position as TakeCode says |
| `ArcCtrl.CArcCtrl.ArcExpandBuf` | HolyCRT/Compress.HC:165-219 | ArcExpandBuf in place writes what Expand puts out, leaves the rest of the destination, and the block is ready for another call |
| `Compress.ArcDetermineCompressionType` | HolyCRT/Compress.HC:102-108 | seven-bit exactly if no byte has its high bit set |
| `Compress.ArcFinishCompression` | HolyCRT/Compress.HC:155-163 | room is tested with the current width, the position moves by the next one |
| `Compress.CompressBuf` | HolyCRT/Compress.HC:281-308 | on byte buffers, builds the archive Compress describes for every input, the empty one included, whatever follows the buffer in memory |
| `Compress.ExpandBuf` | HolyCRT/Compress.HC:250-279 | throws if and only if the type is not one of the three or the size is beyond mapped memory; else returns a buffer of the expanded size that begins with what ExpandArchive says, for an archive that is not packed its body |
| `FatBlk.FatCache.constructor` | HolyCRT/BlkDev/DskDrv.HC:89-97 | DrvFATBlkAlloc: sector 0 of the first copy in the cache, nothing marked |
| `FatBlk.FatCache.DrvFATBlkClean` | HolyCRT/BlkDev/DskDrv.HC:99-115 | which copies are written for each selection, that the mark stays after the first copy alone, and that the tables as seen through the cache do not change |
| `FatBlk.FatCache.DrvFATBlkSet` | HolyCRT/BlkDev/DskDrv.HC:117-140 | nothing happens for the sector already cached; otherwise the old one is written as Clean says and the new one comes from the copy selected |
| `FatBlk.FlatPut` | HolyCRT/BlkDev/FileSysFAT.HC:470-472 | overwriting an entry of a sector changes exactly that entry of the table |
| `FatSpec.VisitedLinks` | HolyCRT/BlkDev/FileSysFAT.HC:412-418 | the clusters a freeing pass visits follow the links from its start, are distinct but for possibly the last, and stay in the table: the pass ends on every table, cyclic chains included |
| `FatSpec.VisitedEnds` | HolyCRT/BlkDev/FileSysFAT.HC:412-418 | and it goes on as far as the chain does: after its last cluster there is none of the table, or it is one it has cleared |
| `FatSpec.VisitedStops` | HolyCRT/BlkDev/FileSysFAT.HC:421-428 | a pass over a table whose last sector is already clear of the chain ends at the first cluster there |
| `FatSpec.SecondPass` | HolyCRT/BlkDev/FileSysFAT.HC:421-428 | the second pass zeroes the chain up to its first cluster in the first pass's last sector, which it takes over from the first copy |
| `FatSpec.CopiesAgree` | HolyCRT/BlkDev/FileSysFAT.HC:399-440 | after freeing, the two copies agree if and only if the chain, once in the sector of its last cluster, stays there |
| `FatSpec.CopiesDiffer` | HolyCRT/BlkDev/FileSysFAT.HC:399-440 | a concrete chain, 200 to 201 to 260 to 150, after whose freeing the copies differ |
| `FatSpec.LastSectorAgrees` | HolyCRT/BlkDev/FileSysFAT.HC:412-429 | whatever the chain, both copies agree on the sector the passes end in |
| `FatAlloc.NextFreeLeast` | HolyCRT/BlkDev/FileSysFAT.HC:454-466 | the next-fit scan takes the nearest free cluster ahead, going round once, and fails only if none is left |
| `FatAlloc.RunPicks` | HolyCRT/BlkDev/FileSysFAT.HC:453-475 | with enough free clusters the loop picks distinct ones and chains them, although the last pick still looks free |
| `FatAlloc.AllocDelivers` | HolyCRT/BlkDev/FileSysFAT.HC:442-498 | given cnt free clusters, exactly cnt distinct previously free clusters of the volume are linked, ended by 0x0FFFFFFF, appended to c when c is a cluster, and no other entry changes |
| `FatAlloc.AllocExact` | HolyCRT/BlkDev/FileSysFAT.HC:442-498 | the call delivers cnt distinct clusters if and only if that many are free |
| `FatAlloc.AllocSucceeds` | HolyCRT/BlkDev/FileSysFAT.HC:442-498 | the call reports success if and only if cnt clusters are free, or cnt - 1 > 0 are and all of them lie past the one allocated last |
| `FatAlloc.AllocInOrder` | HolyCRT/BlkDev/FileSysFAT.HC:453-475 | the clusters picked are the first free ones after the one allocated last, once round, in that order, and none before a pick is passed over |
| `FatAlloc.SilentShortfall` | HolyCRT/BlkDev/FileSysFAT.HC:453-475 | the concrete failure: one cluster short, the call succeeds with its last cluster picked twice and linked to itself before the end mark |
| `FatAlloc.ChainReadsBack` | HolyCRT/BlkDev/DskClus.HC:1-29 | following an allocated chain with ClusNumNext meets the clusters in order and then INVALID_CLUS |
| `FatAlloc.FreeUndoesAlloc` | HolyCRT/BlkDev/FileSysFAT.HC:399-498 | freeing a newly allocated chain restores the first copy, and the second if and only if the chain, once in its last sector, stays there |
| `FatAlloc.AheadAscends` | HolyCRT/BlkDev/FileSysFAT.HC:453-475 | with enough free clusters past the starting point the scan does not go round, and the clusters picked ascend |
| `FatAlloc.FreeRestoresBoth` | HolyCRT/BlkDev/FileSysFAT.HC:399-498 | then freeing what was just allocated restores both copies |
| `FatAlloc.WrappedDiffers` | HolyCRT/BlkDev/FileSysFAT.HC:399-498 | a scan that goes round need not: a concrete table, the picks 200, 260, 150, and a second copy that keeps a link |
| `FatAlloc.WrittenIsChain` | HolyCRT/BlkDev/FileSysFAT.HC:527-534 | the links written over a free run are a chain of consecutive clusters ended by the mark, and change nothing else |
| `FatAlloc.WrittenOver` | HolyCRT/BlkDev/FileSysFAT.HC:527-545 | writing the run over any mixture of the old and the new table gives the new one, so the second copy ends up equal |
| `Fat32.Fat32Drv.FindFree` | HolyCRT/BlkDev/FileSysFAT.HC:454-466 | the scan through the cached sector finds what NextFree finds and changes no table |
| `Fat32.Fat32Drv.LimitExactly` | HolyCRT/BlkDev/FileSysFAT.HC:452-514 | the two bounds the allocators compute are the same and the right one: a cluster is within them if and only if each of its blocks lies before the volume's end |
| `Fat32.Fat32Drv.LastSkipped` | HolyCRT/BlkDev/FileSysFAT.HC:452-461 | the last cluster on the volume is never picked one by one, and the one after it is off the volume |
| `Fat32.Fat32Drv.OnlyLastFree` | HolyCRT/BlkDev/FileSysFAT.HC:442-560 | a table with no other cluster free: the request for one cluster fails, the run of one is found |
| `Fat32.Fat32Drv.DeliveredIs` | HolyCRT/BlkDev/FileSysFAT.HC:442-498 | success exactly by the number of free clusters and where they lie; then the chain is made of the next free ones in the order of the scan, appended to c, and nothing else changes |
| `Fat32.Fat32Drv.FAT32AllocClus` | HolyCRT/BlkDev/FileSysFAT.HC:442-498 | with the cache and two copies the outcome is Alloc's, told from the table alone: when it succeeds, and which clusters are chained in which order; every cluster picked has all its blocks on the volume, both copies on the disk hold the new table, and the next scan starts after the last pick; a request for nothing gets the end mark |
| `Fat32.Fat32Drv.ReadNext` | HolyCRT/BlkDev/DskClus.HC:1-29 | ClusNumNext through the cache is ClusNumNext of the table |
| `Fat32.Fat32Drv.FreePass` | HolyCRT/BlkDev/FileSysFAT.HC:412-418 | one pass zeroes the chain in the copy selected, leaves the other copy, and ends in the last sector visited |
| `Fat32.Fat32Drv.FAT32FreeClus` | HolyCRT/BlkDev/FileSysFAT.HC:399-440 | from equal copies, the first loses exactly the chain, the second ends as FreedSecond says, and they are equal exactly if the chain settles |
| `Fat32.Fat32Drv.FindRun` | HolyCRT/BlkDev/FileSysFAT.HC:509-523 | the search finds the least run of free clusters in the volume, and fails only if there is none |
| `Fat32.Fat32Drv.LinkPass` | HolyCRT/BlkDev/FileSysFAT.HC:527-534 | one writing pass links the run in the copy selected and leaves the other |
| `Fat32.Fat32Drv.FAT32AllocContiguousClus` | HolyCRT/BlkDev/FileSysFAT.HC:500-560 | the least start >= 2 whose cnt clusters are free and in the volume; both copies then hold the consecutive chain with its end mark and nothing else changed; failure exactly if there is no such run; all blocks of the run lie on the volume |
| `RedSeaFree.FreeKeeps` | HolyCRT/BlkDev/FileSysRedSea.HC:262-279 | after a run in use is freed the nodes still hold each unused block once and nothing else, and every request that could be served still can |
| `RedSeaFree.FreeMerges` | HolyCRT/BlkDev/FileSysRedSea.HC:262-279 | a run freed makes the first node it adjoins longer by its blocks and changes no other node; it becomes a node of its own exactly if it adjoins none |
| `RedSeaFree.TakeKeeps` | HolyCRT/BlkDev/FileSysRedSea.HC:324-336 | the run taken from a node was unused and lies in the volume, and the nodes left hold exactly the unused blocks |
| `RedSeaFree.TakeLeaves` | HolyCRT/BlkDev/FileSysRedSea.HC:312-336 | a node large enough for two requests still serves the second, whichever node served the first |
| `RedSeaFree.BuiltServes` | HolyCRT/BlkDev/FileSysRedSea.HC:24-56 | a list just built serves a request as soon as that many blocks in a row are unused |
| `RedSeaFree.Released` | HolyCRT/BlkDev/FileSysRedSea.HC:425-427 | giving up an owner's run takes exactly its blocks out of use; the other owners' runs stay disjoint |
| `RedSeaFree.Taken` | HolyCRT/BlkDev/FileSysRedSea.HC:523-527 | a fresh run becomes an owner's; all runs in use stay pairwise disjoint |
| `RedSeaAlloc.RedSeaVol.Bit` | HolyCRT/BlkDev/FileSysRedSea.HC:37-38 | a bit read through the cache tells whether the block is in use |
| `RedSeaAlloc.RedSeaVol.MarkRun` | HolyCRT/BlkDev/FileSysRedSea.HC:325-330 | setting or clearing a run's bits changes the blocks in use by exactly the run, and the bitmap is then on the disk |
| `RedSeaAlloc.RedSeaVol.RedSeaFreeLstBuild` | HolyCRT/BlkDev/FileSysRedSea.HC:24-56 | the list becomes the maximal unused runs of the bitmap, in order, none touching the next; it is a function of the bitmap alone |
| `RedSeaAlloc.RedSeaVol.RedSeaFreeClus` | HolyCRT/BlkDev/FileSysRedSea.HC:248-298 | bitmap and list, built before or not, both lose exactly the run; cluster number 0 frees nothing; the run is merged into the first node it adjoins |
| `RedSeaAlloc.RedSeaVol.RedSeaAllocClus` | HolyCRT/BlkDev/FileSysRedSea.HC:300-348 | succeeds exactly if some node, of the list or of the one that would be built, can serve the request, taking the front of a smallest sufficient one; bitmap and list then agree; a failure changes neither |
| `RedSeaAlloc.RedSeaVol.FindBest` | HolyCRT/BlkDev/FileSysRedSea.HC:312-321 | the first of the smallest sufficient nodes, or none |
| `RedSeaDir.LookupFinds` | HolyCRT/BlkDev/FileSysRedSea.HC:184-196 | in a well-kept directory a lookup finds the live file of the name exactly if there is one |
| `RedSeaDir.FindAnswers` | HolyCRT/BlkDev/FileSysRedSea.HC:184-196 | for each setting of the two filters a search gives the first live entry of the name, a directory if directories are asked for and none if files are, and nothing exactly if there is no such entry |
| `RedSeaDir.SweptKeeps` | HolyCRT/BlkDev/FileSysRedSea.HC:477-496 | deleting keeps the directory well formed and hides exactly the files matched |
| `RedSeaDir.SweptLists` | HolyCRT/BlkDev/FileSysRedSea.HC:477-496 | deleting takes away the live entries of the name, its directory only if directories are to go too, and leaves all other entries as they are |
| `RedSeaDir.DeletedOne` | HolyCRT/BlkDev/FileSysRedSea.HC:482 | the count is 1 if the name's file was there to delete and 0 otherwise |
| `RedSeaDir.PlacedKeeps` | HolyCRT/BlkDev/FileSysRedSea.HC:372-441 | putting an entry in: its name is found, every other lookup answers as before, and only a directory about to grow has lost its last free slot |
| `RedSeaDir.PlacedLists` | HolyCRT/BlkDev/FileSysRedSea.HC:372-441 | the new entry takes the place of the live entry of its name, file or directory, and all other entries are listed as before |
| `RedSeaDir.PlacedExtents` | HolyCRT/BlkDev/FileSysRedSea.HC:423-434 | the entry replaced gives up its run, and the new entry's run is in the slot it took |
| `RedSeaDir.GrownKeeps` | HolyCRT/BlkDev/FileSysRedSea.HC:379-396 | the moved, longer directory answers all lookups as before and has free slots again |
| `RedSeaDir.GrownLists` | HolyCRT/BlkDev/FileSysRedSea.HC:379-396 | the directory moved lists the same files and directories |
| `RedSeaDir.ReusedLists` | HolyCRT/BlkDev/FileSysRedSea.HC:372-441 | a directory that cannot grow lists what it listed, and the new entry exactly if a deleted slot took it |
| `RedSeaDir.ReusedLookup` | HolyCRT/BlkDev/FileSysRedSea.HC:372-441 | when the directory cannot grow, the entry is found exactly if the directory has a deleted slot, which took it on the way, and every other lookup answers as before |
| `RedSea.ReadsBack` | HolyCRT/BlkDev/FileSysRedSea.HC:222-227 | the blocks written for a buffer read back as its bytes, cut at the size |
| `RedSea.EnoughRoom` | HolyCRT/BlkDev/FileSysRedSea.HC:509-535 | one node long enough for the data and the grown directory makes the write succeed |
| `RedSea.RedSeaDrv.RunsApart` | HolyCRT/BlkDev/FileSysRedSea.HC:248-535 | over every run, live runs and the directory's own share no block, are marked in the bitmap, keep off its last sector, and no free node touches them |
| `RedSea.RedSeaDrv.RedSeaFileFind` | HolyCRT/BlkDev/FileSysRedSea.HC:155-205 | in a well-kept directory, for each setting of the filters: the first live entry of the name, a directory if directories are asked for and no directory if files are; none exactly if there is no such entry or the name is invalid |
| `RedSea.RedSeaDrv.RedSeaFileRead` | HolyCRT/BlkDev/FileSysRedSea.HC:207-234 | returns the contents of the live file of the name, or nothing |
| `RedSea.RedSeaDrv.Sweep` | HolyCRT/BlkDev/FileSysRedSea.HC:477-496 | the walk marks exactly the entries matched, frees their runs, counts the files among them, and writes only directory blocks |
| `RedSea.RedSeaDrv.RedSeaFilesDel` | HolyCRT/BlkDev/FileSysRedSea.HC:456-507 | the live file of the name is gone, and its directory if directories are to go too; all other files and directories are listed and read as before; the count is 1 if the file was there; a name that begins with a dot or '!' matches nothing |
| `RedSea.RedSeaDrv.GrowRoot` | HolyCRT/BlkDev/FileSysRedSea.HC:379-396 | the directory moves to a run one block longer with all its entries, if and only if the list has such a run once the directory's own is freed; else it is left in blocks already marked unused, and nothing else changes |
| `RedSea.RedSeaDrv.PlaceOnWalk` | HolyCRT/BlkDev/FileSysRedSea.HC:372-441 | the walk stops at the first free slot or entry of the name, and has put the entry into the first deleted slot it passed |
| `RedSea.RedSeaDrv.RedSeaDirNew` | HolyCRT/BlkDev/FileSysRedSea.HC:350-454 | the directory takes the entry, grown if the walk ended at its last slot; it fails if and only if it must grow and cannot, and what it leaves then is stated; afterwards the entry stands for its name alone and all other files and directories are listed as before |
| `RedSea.RedSeaDrv.RedSeaFileWrite` | HolyCRT/BlkDev/FileSysRedSea.HC:509-535 | the file reads back as the bytes written and every other file as before, across slot reuse, replacement and growth; which outcome comes is told exactly by the name, the length, the directory and the free list before the call; after each failure the state of the directory, of the data's blocks and of every file is stated exactly: without space for the data the old file is gone unless its name begins with '.' or '!', and without room to grow the new one can be read exactly if a deleted slot took its entry; which files and directories are listed afterwards is told for each outcome |
| `RedSea.RedSeaDrv.UnbuiltRoom` | HolyCRT/BlkDev/FileSysRedSea.HC:300-311 | while no list has been built, as after formatting, enough unused blocks in a row make the write succeed |
| `RedSea.RedSeaDrv.FullCannotGrow` | HolyCRT/BlkDev/FileSysRedSea.HC:379-396 | on a full volume no directory can grow |
| `RedSea.RedSeaDrv.RedSeaFmt` | HolyCRT/BlkDev/FileSysRedSea.HC:94-153 | a formatted volume keeps all invariants on objects of its own, has an empty root directory after its first data block (the last bitmap sector), and nothing else in use; it fails exactly if the volume is too small; the directory has its own entry and lists `..` alone |
| `RedSea.RedSeaDrv.RedSeaInit` | HolyCRT/BlkDev/FileSysRedSea.HC:58-80 | a new cache over the bitmap on the disk sees the same blocks in use |
| `RedSeaRuns.FormatWriteRead` | HolyCRT/BlkDev/FileSysRedSea.HC:94-535 | format, write, read gives back what was written, if and only if the volume holds the last bitmap sector, the root directory and the file |
| `RedSeaRuns.FileLost` | HolyCRT/BlkDev/FileSysRedSea.HC:521-527 | the concrete loss, run from formatting on: a file of one byte reads back, is written again with one block more than the volume has, and is gone |
| `RedSeaRuns.DirectoryLost` | HolyCRT/BlkDev/FileSysRedSea.HC:379-396 | the concrete failure, run from formatting on: the sixth empty file on a full volume leaves the directory in a block marked unused |
| `FileNames.FileNameChk` | HolyCRT/BlkDev/DskStrA.HC:249-263 | lets through `.` and `..` and names of 1 to 37 characters without control characters and the twelve reserved ones |
| `FileNames.BitmapIs` | HolyCRT/StrA.HC:345-348 | the 256 bits of char_bmp_filename are exactly those characters |
| `MemPool.Cut` | HolyCRT/Mem/MemPag.HC:68-71 | cutting a block in two leaves every page of the pool in exactly one block |
| `MemPool.StartInTable` | HolyCRT/Mem/MemPag.HC:30-39 | for requests the index arithmetic is safe for, the search starts below the last list |
| `MemPool.CBlkPool.constructor` | HolyCRT/Mem/BlkPool.HC:18-27 | the pool's record takes the first pages, the rest is one free block, and the bytes counted are all of them |
| `MemPool.CBlkPool.BlkPoolAdd` | HolyCRT/Mem/BlkPool.HC:1-16 | new pages join the pool at the head of the carving list, counted in bytes; the memory given does not begin at NULL, which would end the list |
| `MemPool.CBlkPool.NoOverlap` | HolyCRT/Mem/MemPag.HC:11-112 | over every run no page is in two blocks, free or live |
| `MemPool.CBlkPool.LivePositive` | HolyCRT/Mem/MemPag.HC:45-48 | over every run no block handed out holds page 0, so that NULL means out of memory and nothing else |
| `MemPool.CBlkPool.Conservation` | HolyCRT/Mem/MemPag.HC:11-112 | over every run the bytes given to the pool less the bytes in use are the free blocks' bytes and the pool record's pages |
| `MemPool.CBlkPool.FromCarveList` | HolyCRT/Mem/MemPag.HC:45-74 | first fit: the top pages of the first block that has enough, which goes if that is all of it; fails only if none has enough |
| `MemPool.CBlkPool.FromLarger` | HolyCRT/Mem/MemPag.HC:47-60 | the first block of the first list past the start that has any, whole; fails only if all are empty |
| `MemPool.CBlkPool.MemPagAlloc` | HolyCRT/Mem/MemPag.HC:11-81 | fails exactly if no list, carving block or larger list serves; otherwise which block is handed out is told: the first that waits for the size, else one cut off the top of the first carving block long enough, rounded up to two more than a power of two if the request is long, else the first freed block of the next list that has any; what the lists hold afterwards is told too |
| `MemPool.CBlkPool.MemPagFree` | HolyCRT/Mem/MemPag.HC:83-112 | the block leaves the live ones and becomes the first of the list of its exact size, or of the power of two its size lies at or above; no other list changes, the bytes in use shrink by the block's, and every request the block serves can then be met |
| `MemPool.CBlkPool.FreeThenAlloc` | HolyCRT/Mem/MemPag.HC:11-112 | what is given back can be had again: after a block is freed, a request that it serves succeeds, and one of its own short size gets the block itself |
| `MemPool.CBlkPool.ShortFailsExactly` | HolyCRT/Mem/MemPag.HC:26-62 | from the sizes alone: a request below 256 pages fails if and only if no freed block has its size, none to carve from is long enough, and no freed block has 1026 pages or more |
| `MemPool.ShortStarves` | HolyCRT/Mem/MemPag.HC:11-112 | the concrete failure: the 258 pages of a pool are handed out and given back, and a request for one page is out of memory |
| `HeapSpec.NewBlock` | HolyCRT/Mem/MemPag.HC:122-125 | a block new from the pool is apart from the heap's others, and nothing is in it yet |
| `HeapSpec.CutPiece` | HolyCRT/Mem/MAllocFree.HC:139-145 | cutting the top off a free piece keeps all pieces disjoint and inside their blocks |
| `HeapSpec.Merged` | HolyCRT/Mem/MAllocFree.HC:105-119 | two adjoining chunks become one block; pieces stay housed and the pages counted stay the same |
| `HeapSpec.Dropped` | HolyCRT/Mem/MAllocFree.HC:320-325 | a large object's block leaves the heap with nothing else in it |
| `HeapSpec.KeptNew` | HolyCRT/Mem/MemPag.HC:122-125 | taking a block from the pool leaves the blocks of other heaps handed out and theirs, and the block was nobody's |
| `HeapSpec.KeptDropped` | HolyCRT/Mem/MemPag.HC:153-167 | giving a block back leaves the blocks of other heaps handed out and theirs |
| `Heap.CHeapCtrl.constructor` | HolyCRT/Mem/HeapCtrl.HC:1-13 | a new heap on a pool is valid and has no objects |
| `Heap.CHeapCtrl.TidyUp` | HolyCRT/Mem/MemPag.HC:127-148 | the tidy-up loop ends; the free list keeps, in their order, the pieces from some length on, the first of 64, 128, 256, 512 bytes that leaves at most eight, or 1024; the others are in the lists for their sizes, and no piece is lost, split or doubled |
| `Heap.CHeapCtrl.MemPagTaskAlloc` | HolyCRT/Mem/MemPag.HC:114-151 | it fails exactly if the pool has no such block; otherwise the newest block of the heap has the pages asked for, is clear of every piece and not the chunk to merge with; blocks of other heaps are left alone |
| `Heap.CHeapCtrl.Merge` | HolyCRT/Mem/MAllocFree.HC:105-121 | the newest chunk becomes the one to merge with, and absorbs the last one exactly if that begins where it ends; no other block changes |
| `Heap.CHeapCtrl.FindFree` | HolyCRT/Mem/MAllocFree.HC:75-143 | the walk stops at the first piece that fits exactly or leaves room for a header, and comes to the end only if there is none |
| `Heap.CHeapCtrl.MAlloc` | HolyCRT/Mem/MAllocFree.HC:4-221 | it fails exactly if, for a small request, the list for its size is empty, no free piece fits and the pool has no chunk to give, or for a large one the pool has no block of its length; then objects and counters are as before. Otherwise one object more, at least the size asked for and exactly that, rounded, if small, aligned to eight, not at NULL, and taken from the list for its size if that has one; bytes in use grow by its size; older pointers lead where they led, and other heaps' blocks are left alone; where the object lies is told as well: the first piece of its size's list, else the top of the first free piece that fits, else the end of a new chunk, or for a large one the block that waits for its length |
| `Heap.CHeapCtrl.ObjectsApart` | HolyCRT/Mem/MAllocFree.HC:28-334 | over every run two live objects never share a byte |
| `Heap.CHeapCtrl.LivePositive` | HolyCRT/Mem/MAllocFree.HC:4-221 | over every run no object lies at NULL |
| `Heap.CHeapCtrl.MSize` | HolyCRT/Mem/MAllocFree.HC:336-350 | an object's room, also by way of an aligned pointer's negative offset; 0 for NULL |
| `Heap.CHeapCtrl.Free` | HolyCRT/Mem/MAllocFree.HC:223-334 | exactly that object is no longer live, bytes in use shrink by its size, a small one is now the first of the list for its size, pointers to other objects lead where they led, and other heaps' blocks are left alone; freeing NULL does nothing; a large one's block serves requests again |
| `Heap.CHeapCtrl.FreeSmall` | HolyCRT/Mem/MAllocFree.HC:309-318 | a small object becomes the first of the list for its size, and nothing goes to the pool |
| `Heap.CHeapCtrl.BlockOf` | HolyCRT/Mem/MAllocFree.HC:320-325 | the block header in front of a large object is that of a block of its own |
| `Heap.CHeapCtrl.FreeLarge` | HolyCRT/Mem/MAllocFree.HC:320-325 | a large object's block goes back to the pool, which can then meet every request the block serves |
| `Heap.CHeapCtrl.FreeThenMAlloc` | HolyCRT/Mem/MAllocFree.HC:4-334 | a small object freed and asked for again comes back at the same place, whatever else is free, and the bytes in use are as before |
| `Heap.CHeapCtrl.FreeThenMAllocLarge` | HolyCRT/Mem/MAllocFree.HC:4-334 | a large object freed and one asked for that its block serves: the request succeeds, at the same place if the block is short and has the same pages |
| `Heap.CHeapCtrl.MAllocAligned` | HolyCRT/Mem/MAllocFree.HC:423-432 | it fails exactly if MAlloc of the padded size does; otherwise the pointer is aligned as asked and not NULL, its room lies in a new object, the word in front leads MSize and Free to that object, the words written are exactly two, bytes in use grow by the object's, and all older pointers lead where they led |
| `Heap.CHeapCtrl.HandlesKept` | HolyCRT/Mem/MAllocFree.HC:423-432 | words written into a new object leave every pointer to another object leading where it led |
| `TaskHeaps.StillOwns` | HolyCRT/Mem/MemPag.HC:114-167 | after a call on one heap another heap's pages are still pages the pool has handed out |
| `TaskHeaps.StillLarge` | HolyCRT/Mem/MemPag.HC:114-167 | and its large objects still have their blocks |
| `TaskHeaps.StayTogether` | HolyCRT/Mem/MAllocFree.HC:4-334 | a call on one heap keeps every heap on the pool valid and their blocks apart |
| `TaskHeaps.NoByteShared` | HolyCRT/Mem/MAllocFree.HC:4-334 | no two objects share a byte, be they of one heap or of two on the same pool |
| `TaskHeaps.Init` | HolyCRT/Mem/HeapCtrl.HC:1-13 | a new heap can join the others at any time |
| `TaskHeaps.Serve` | HolyCRT/Mem/MAllocFree.HC:4-432 | one call of MAlloc, MAllocAligned or Free: all heaps stay valid and apart, pointers lead to their own objects, and the other heaps are untouched; a request is refused exactly if heap and pool have nothing for it, otherwise there is one more object with the room and alignment asked for, and what is given back goes, and nothing else |
| `TaskHeaps.Run` | HolyCRT/Mem/MAllocFree.HC:4-432 | the same for any number of calls on any of the heaps in any order; over the whole run an object stays where it is until it is given back |
| `DskCache.WithoutAt` | HolyCRT/BlkDev/DskCache.HC:46-51 | taking an entry out of a list that has it once leaves the others in their order |
| `DskCache.AgedByMore` | HolyCRT/BlkDev/DskCache.HC:76-95 | least recently used: blocks added in turn are the youngest in that order, and before them stand the youngest of the others in the order they had; only the oldest have gone |
| `DskCache.BlkDevCache.constructor` | HolyCRT/BlkDev/DskCache.HC:1-38 | every entry is in the queue, none holds a block, the invariants hold, and there is a cache exactly from 8192 bytes on |
| `DskCache.BlkDevCache.DskCacheFind` | HolyCRT/BlkDev/DskCache.HC:64-74 | finds the entry that holds the block, and reports none only if no entry at all does |
| `DskCache.BlkDevCache.DskCacheQueRem` | HolyCRT/BlkDev/DskCache.HC:46-51 | the entry leaves the queue and its bucket |
| `DskCache.BlkDevCache.DskCacheQueIns` | HolyCRT/BlkDev/DskCache.HC:53-62 | the entry goes to the young end of the queue and the head of its block's bucket |
| `DskCache.BlkDevCache.TakeOver` | HolyCRT/BlkDev/DskCache.HC:82-89 | a block takes over the entry that holds it already, else the oldest, which becomes the youngest; no other entry changes |
| `DskCache.BlkDevCache.DskCacheAdd` | HolyCRT/BlkDev/DskCache.HC:76-95 | blocks just transferred are held, each once, in the right bucket and equal to the device's; they are the youngest now, and the oldest others have gone |
| `DskCache.BlkDevCache.DskCacheInvalidate2` | HolyCRT/BlkDev/DskCache.HC:97-117 | no entry holds a block of the drive any more; the invariants are kept |
| `DskCache.BlkDevCache.RCache` | HolyCRT/BlkDev/DskCache.HC:119-145 | what is stripped at the front and the back was held and is what the device has; the two ends of the rest are not held, and the rest of the buffer is untouched |
| `DskCache.BlkDevCache.BlkRead` | HolyCRT/BlkDev/DskBlk.HC:31-69 | whatever the cache holds, the buffer gets the device's blocks; it fails exactly for blocks outside the drive; only what is not held at either end is transferred, and that is then the youngest in the cache |
| `DskCache.BlkDevCache.BlkWrite` | HolyCRT/BlkDev/DskBlk.HC:71-109 | the device gets the buffer's blocks and no other block changes, and every cached block still equals the device's; the blocks written are the youngest held |
| `JobServer.RunsKeep` | HolyCRT/MultiProc.HC:194-273 | in every state of every interleaving each lock has the holder the program points say, each posted job is in exactly one place, and done bits tell the truth |
| `JobServer.ServerKeeps` | HolyCRT/MultiProc.HC:194-211 | every step of the server keeps the invariant, and with known job codes the server stays awake for waiting jobs |
| `JobServer.ClientKeeps` | HolyCRT/MultiProc.HC:213-273 | every step of a posting or collecting task keeps them too |
| `JobServer.ServerPlaced` | HolyCRT/Job.HC:269-347 | the server's steps keep each job in exactly one of waiting queue, its hands, a done queue, or freed |
| `JobServer.ClientPlaced` | HolyCRT/MultiProc.HC:213-273 | the other tasks' steps do too |
| `JobServer.ServerBits` | HolyCRT/Job.HC:317-345 | the done bit is set on jobs in done queues and not on jobs waiting, running or freed |
| `JobServer.ReturnsWithLock` | HolyCRT/Job.HC:269-347 | in every run JobRunOne returns holding the queue's lock exactly when it returns JOB_DONE |
| `JobServer.ResultIsThere` | HolyCRT/Job.HC:164-197 | a task that saw the done bit and has the lock finds its job in the done queue of the job's master |
| `JobServer.AnswersFor` | HolyCRT/Job.HC:269-347 | JobRunOne answers JOB_DONE only for a job of another code, which stays first in the queue, and JOB_EXIT exactly for the jobs that ask for it |
| `JobServer.FirstInFirstOut` | HolyCRT/MultiProc.HC:194-245 | over every run of any interleaving the jobs the server has got to are the first ones posted, in the order they were posted, and the rest wait in that order |
| `JobServer.DoneBitsTell` | HolyCRT/Job.HC:317-345 | with the locks free the done bit is set exactly on the jobs in done queues |
| `JobServer.NoLostWakeup` | HolyCRT/MultiProc.HC:194-245 | with job codes JobRunOne handles, no run reaches a free lock, a waiting job and a server waiting for a message |
| `JobServer.LostWakeup` | HolyCRT/Job.HC:314-316 | the concrete failure: a job with any other code, posted to a sleeping server, leaves it asleep with the job at the head of the queue |
| `JobServer.WakeupLostExactly` | HolyCRT/Job.HC:269-347 | no run loses a wakeup if and only if every job is an ExeStr, Call or SpawnTask job |
| `JobServer.SleepsOn` | HolyCRT/MultiProc.HC:200-245 | a server asleep beside a waiting job is woken by exactly one kind of step, a task that clears the flag in any case as TaskExe does; the queue only gets longer |
| `JobServer.NeverWakes` | HolyCRT/MultiProc.HC:194-245 | from then on no run of any length in which tasks post by JobQue wakes the server |
| `JobServer.LostForGoodExactly` | HolyCRT/Job.HC:269-347 | the server can be left asleep for good beside a waiting job if and only if some job is a TextInput or Msg job |
| `BinPatch.WritesBack` | load_kernel.c:49-58 | bytes read as a number and stored at the same width come back |
| `BinPatch.Field32` | load_kernel.c:135-144 | a 32-bit field keeps a number modulo two to the 32nd |
| `BinPatch.FieldHolds` | HolyCRT/KLoad.HC:42-49 | a field of any width keeps a number modulo 256 to the number of its bytes |
| `BinPatch.AddChangesNothing` | load_kernel.c:135-144 | adding to a 32-bit field leaves its bytes alone if and only if the addend is a multiple of two to the 32nd |
| `BinPatch.StoreMore` | load_kernel.c:49-58 | one patch more, clear of the others: all patches hold, all other bytes are as before |
| `BinPatch.OnlyOne` | HolyCRT/KLoad.HC:40-49 | two memories with the same patches over the same image are equal, whatever the order of patching |
| `KernelLoad.LoadKernel` | load_kernel.c:99-146 | the walk over the patch table, its groups and the offsets behind absolute addresses leaves the image with exactly the patches of the table's relocations, and announces exactly the table's exports; each import field leads to its symbol, each word listed has the base added once, and no other byte changes |
| `KernelLoad.KernelLinked` | load_kernel.c:13-146 | from the table alone: a relative field counted from its own end leads to the symbol its group is named after, an immediate one holds it, modulo the field; the words listed are moved by the base, and nothing else changes |
| `KernelLoad.LoadOneImport` | load_kernel.c:13-62 | a group of imports is patched under its one name, and the walk goes on behind it |
| `KernelLoad.RelocsAt` | load_kernel.c:99-146 | an entry's relocations stand together, behind those of the entries before it |
| `ElfConvert.ByAddressOk` | bin2elf.py:141 | the relocations are converted in order of address, each of them once, whatever their order in the patch table |
| `ElfConvert.MakeObject` | bin2elf.py:134-189 | the conversion fails exactly for an unsupported relocation; otherwise one ELF relocation for each one kept, in order of address, and zeros in the fields converted only |
| `ElfConvert.SamePatch` | bin2elf.py:141-185 | a relocation kept makes the linker (section 4.4.1 of the System V psABI for AMD64) store what the loader stores |
| `ElfConvert.LeftOut` | bin2elf.py:148-151 | a field whose relocation is left out comes out of the linker as it was |
| `ElfConvert.LinkedIsDirect` | bin2elf.py:134-187 | linking the converted object at an address gives, byte for byte, the image loaded there directly, if and only if no relocation was left out or the address is a multiple of two to the 32nd |
| `ElfConvert.RelocationLost` | bin2elf.py:148-151 | the concrete failure: one field with a large addend, which the linker leaves and the loader changes |
| `KLoadSpec.HeadOfGroup` | HolyCRT/KLoad.HC:9-31 | the entries LoadOneImport reads for a symbol are those up to the next named entry |
| `KLoadSpec.PatchMore` | HolyCRT/KLoad.HC:32-50 | patching one more place keeps all places patched before, and finds the place as the file had it |
| `KLoadSpec.OneResult` | HolyCRT/KLoad.HC:67-153 | the bytes after loading all modules are determined by the modules alone |
| `LoadMeaning.PatchedLinked` | HolyCRT/KLoad.HC:40-106 | memory patched at exactly the places due is linked: every import field of 1, 2, 4 or 8 bytes whose symbol some module exports leads to the symbol's value, from its own end if it is of a relative type, modulo the field; every word listed has its module's base added, and no other byte changes |
| `KLoad.FindsExport` | HolyCRT/KHashA.HC:45-78 | the newest-first search finds an export of the name exactly if the table has one |
| `KLoad.Loader.LoadOneImport` | HolyCRT/KLoad.HC:1-53 | a known symbol: every place of the group is patched, each once; an unknown one: the group goes on the waiting list and nothing is patched; the cursor stops at the next named entry |
| `KLoad.Loader.SysSymImportsResolve` | HolyCRT/KLoad.HC:55-65 | it ends; every group waiting for the name is patched and leaves the list, all others stay |
| `KLoad.Loader.ResolveOne` | HolyCRT/KLoad.HC:61-63 | one waiting group is patched and its entry turned invalid, and no other group stops waiting |
| `KLoad.Loader.PassExport` | HolyCRT/KLoad.HC:77-91 | after an export nobody waits for it, and the places patched are exactly those reached |
| `KLoad.Loader.PassAbs` | HolyCRT/KLoad.HC:96-106 | each offset listed gets the module's address added, once |
| `KLoad.Loader.LoadPass1` | HolyCRT/KLoad.HC:67-153 | the cursor handles each entry of the table exactly once; a group waits exactly while its symbol is not exported |
| `KLoad.Loader.LoadAll` | HolyCRT/KLoad.HC:67-153 | loading every module once, in any order, patches exactly the places due: all offsets listed and all imports of symbols some module exports; the fields then hold what their types and symbols say |
| `KLoad.LoadTwice` | HolyCRT/KLoad.HC:67-153 | two loads of the same modules in different orders leave the same memory, and it is linked |
| `QSort.SidesMakeWhole` | HolyCRT/QSort.HC:23-29 | two sorted sides, one at most the pivot and one at least, with pivots between, make a sorted segment |
| `QSort.ShuffleKeepsSide` | HolyCRT/QSort.HC:23-28 | rearranging a side keeps it on its side of the pivot |
| `QSort.FindStops` | HolyCRT/QSort.HC:15-22 | ahead of each cursor there is an element its scan cannot pass, so the scans need no bounds |
| `QSort.ScanUp` | HolyCRT/QSort.HC:16-17 | the upward scan stops at the first element not less than the pivot, inside the segment |
| `QSort.Turn` | HolyCRT/QSort.HC:15-22 | one turn of both scans and the exchange keeps the split and brings the cursors together |
| `QSort.Partition` | HolyCRT/QSort.HC:12-22 | the do-while loop leaves the cursors crossed, each side on its side of the pivot, a permutation |
| `QSort.QSortI64` | HolyCRT/QSort.HC:1-30 | the segment is sorted by any total preorder and is a permutation of what it was; nothing outside changes; each recursive call is on fewer elements |
| `QSort.SwapElems` | HolyCRT/QSort.HC:69-73 | two elements of width bytes change places by way of the scratch buffer; no other byte of the array changes |
| `QSort.PartitionElems` | HolyCRT/QSort.HC:60-77 | the byte cursors do to the elements what Partition does to words |
| `QSort.QSort2b` | HolyCRT/QSort.HC:55-84 | elements of any positive width come out sorted, a permutation of whole elements; bytes past them are unchanged |
| `StrTabs.LeastIsLeast` | HolyCRT/StrA.HC:472-517 | no string that looks like a text on the screen is shorter than Least says |
| `StrTabs.EmitStop` | HolyCRT/StrA.HC:482-492 | one character in place of the spaces up to a stop leaves the look and the least length attainable |
| `StrTabs.EmitTab` | HolyCRT/StrA.HC:493-499 | a tab written without the spaces in front of it looks the same and saves exactly those |
| `StrTabs.Spaces2Tabs` | HolyCRT/StrA.HC:472-517 | also in place: the string written expands to what the source expands to, no string that does is shorter, the result is the length saved, and nothing past the source's end is written |
| `StrTabs.Put` | HolyCRT/StrB.HC:20-27 | a character is written inside the buffer, which doubles exactly when one place is left behind it |
| `StrTabs.Tabs2Spaces` | HolyCRT/StrB.HC:1-33 | the new buffer holds the text with every tab expanded to its stop, and a zero; no write is outside a buffer |

## Left out

Archives:

- An archive's bits are numbered from its start; the three header fields stand beside them as fields of a datatype.
- The chains through the entries' `next` fields are sequences, one for each base; the 32-bit store of `next_entry` (HolyCRT/Compress.HC:80) is a full one, as for a control block in low memory.
- Compress.ExpandBuf: archives on which the decoder would leave its stack or table, which CompressBuf never makes, are excluded (`ArcBuffers.ExpandArchive` is undefined there).
- CompressBuf in pieces with a saved code, although `ArcCtrl.CArcCtrl.CompressFrom` starts from any pending code; the terminating zero ExpandBuf adds after the data; allocation of the buffers.
- ArcCtrl.CArcCtrl.CompressFrom: its first character is passed in, since `ArcCompressBuf` reads it before the loop and for an empty input reads the byte past the buffer, which `Compress.CompressBuf` gets as a parameter.

FAT32:

- Drive locks, the break lock, and the unlocking done twice after an exception; the info sector that gets the last cluster allocated.
- Fat32.Fat32Drv.FAT32FreeClus: chains with a link outside the table are not covered, since reading one is a read outside the drive; nor are tables whose copies differ before the call.
- Directories, long names, files and formatting on FAT32.

RedSea:

- Sub-directories, with the fix-ups of `..` entries and of a parent when a directory moves; dates and attributes but for the directory and deleted bits; RedSeaMkDir, RedSeaCd and directory listings.
- RedSea.RedSeaDrv.RedSeaDirNew: only the calls that free the old chain (as RedSeaFileWrite makes them); calls with `free_old_chain` FALSE come from sub-directories.
- RedSea.RedSeaDrv.RedSeaFilesDel: not the names it prints; a mask is a name without wildcards.
- RedSea.RedSeaDrv.RedSeaFmt: not the boot record's other fields, nor the difference between a quick and a full format, whose zeroing of the data area nothing reads.
- FileNames.FileNameChk: a null pointer for a name. The drive's methods take a name for valid where `FileNames.ValidName` does.
- A block holds either directory slots or bytes. What a file's last block holds past the file's end is whatever follows the caller's buffer in memory, a parameter here.

Heap:

- HeapCtrlDel, the heap log, the debugging queue and callers (`_CFG_HEAP_DBG`), filling memory on allocation, locks, and the panics on a bad signature: callers hold a handle to a live object.
- Heap.CHeapCtrl.Free: called on the heap the object is of, which the original reads from the object's header.
- 64-bit wrap-around of addresses and counters, and the 32 bits of a merged block's page count.
- MemPool.CBlkPool.MemPagAlloc: requests for no pages and for more than the last list but one can serve are not covered; the list index computed for them leaves the table.
- Heap.CHeapCtrl.MAlloc: sizes whose page count the pool's lists do not cover are excluded, as for the pool.
- Links inside free memory are sequences of pieces; headers are a map from address to word.

Disk cache:

- Drives that share blocks of a device, devices that report an error, ISO and ATA devices as such (each is an array of blocks), a read-only flag overridden, changing a device's flags while blocks are cached, the cache semaphore and the lock of a drive.
- BlkWriteZero, DskChg and DskCacheInvalidate by name.

Jobs:

- JobServer.NoLostWakeup: about states, not about time: nothing is said about when a scheduler runs a task.
- A posted job is given to a task as its own; TaskMsg and TaskText, JobsHndlr, waking or focusing the master, dying tasks, and the DISPATCHED bit. A job's work and its exceptions change nothing in the queues.
- A collecting task asks for one job of its own; JobResScan without a job and two tasks asking for the same one are not modelled.

Loading:

- binfile.py, which reads patch tables for the conversion, is not part of this model; nor are symbol names' suffixes, exports, thunks, and the ELF file's bytes. Whether the object library copies the section before or after fields are zeroed makes no difference to a linker that stores explicit addends.
- ElfConvert.LinkedIsDirect: all symbols are resolved with values other than 0, fields do not overlap, and the linker checks no overflow; the direct loader leaves a field alone whose symbol it does not know.
- Patch tables are sequences of entries, not bytes; heap entries (HolyCRT/KLoad.HC:108-149), functions and variables as symbols, load flags, LoadPass2 and Load.
- KernelLoad.LoadKernel: fields of other widths than four, which the conversion rejects, and symbols the loader does not find are excluded.
- KLoad.Loader.LoadPass1: tables with heap entries, and tables that are not well formed, are excluded.
- KLoad.Loader.LoadAll: modules whose tables are well formed, whose patched places lie apart, and no name exported twice.

Sorting:

- QSort2a, which is QSortI64 with comparisons by reference, and QSort, which picks one of them and allocates the scratch buffer.
- QSort.QSort2b: the comparison is a function of the two elements' bytes.

Not modelled at all, because they are hardware or interface code or would add easy members: the other string functions, wildcard matching, dates, FAT long names and ISO9660, buffered files by cluster (HolyCRT/BlkDev/DskCFile.HC), the virtual file system on the host, symbol table printing, interrupts, paging and context switches.
