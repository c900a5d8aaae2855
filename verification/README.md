# A model of the emulator's caches, disc images and controllers

Dafny models of the parts of the emulator whose correctness rests on invariants over whole runs, with
proofs. `dafny verify dfyconfig.toml` checks everything.

| files | model of |
|---|---|
| `CodeCacheModel`, `CodeCacheStores`, `PageLists`, `BlockCounters`, `BlockDecoding`, `CodeCache`, `CodeCacheRuns` | the CPU code cache: block map, page lists, code bits, links, patched branches, dispatch table, all kept in agreement with guest RAM |
| `FastMap` | the dispatch table with biased pointers |
| `FastmemLut` | the table of directly accessible RAM pages |
| `AsyncReader` | the CD read-ahead ring, two threads interleaved at single atomic operations |
| `Bits`, `EccMath`, `EccEdc`, `SectorCodec`, `EcmImage`, `EcmEncoding` | ECM images: sector reconstruction (section 14 and Annex A of ECMA-130), random access, and whole encoded files |
| `CdImage`, `CueSheet`, `CueLayout`, `PpfOverlay` | positions, table of contents, sequential reading, cue sheets, patch overlay |
| `Wildcard`, `Md5Compression`, `Md5Digest`, `Md5TestSuite` | the wildcard matcher, and streaming MD5 (RFC 1321) |
| `SaveState`, `StateWrapper`, `StateFormat` | memory streams, ring queue, save states and their bytes |
| `CdromHandshake` | interrupt and command handshake of the CD-ROM controller |
| `InstructionCache` | the interpreter's instruction cache |
| `Common`, `Arithmetic` | shared types and division facts |

Objects whose methods update fields are classes here, with the same methods; each method is proved
against a function or a relation on values, and the promises are lemmas about those. Guest addresses,
frame numbers, lengths and file offsets are unbounded numbers unless a contract mentions a wrap-around;
where the source wraps (frame differences, unsigned differences, truncated minutes, 32-bit file offsets,
the MD5 arithmetic) the model wraps too.

## Where the code does not do what one would expect

Each of these is stated as a lemma or a contract, with the condition under which the code is right.

- `WildcardMatch` folds case when its parameter says case-sensitive, and compares exactly otherwise
  (src/common/string_util.cpp:40-132). The model follows the code. "a" against "A" is answered wrongly
  (`Wildcard.CaseFlagIsInverted`); a mask is answered as the parameter says for every subject exactly if
  it holds no letter, and so is a subject for every mask (`FlagHonouredForMask`, `FlagHonouredForSubject`).
- Read-ahead: if a seek fails while `m_can_readahead` is still set, the read thread goes on from where
  it stands, and a wait hands over that sector as a success (`AsyncReader.WaitIsRight`,
  `DerailedWaitReturnsWrongSector`, `DerailedRunExists`).
- A device transfer into RAM invalidates code pages only when the words are there, and if it reaches the
  end of RAM or goes downwards the address has moved on by then, so pages may keep stale blocks
  (`CodeCacheStores.DmaMisses`). It is right exactly in these cases (`CoversRam`, `CoversExactly`,
  `DmaInv`): n words upwards, with w = address + 4 n - 2 MB, if w < 0, or if w is less than a page and
  w + 4 n - 4 reaches the last page; n words downwards, if they do not wrap around and the first one is
  not at the start of a page, or if they wrap around until the address left is on the first page again;
  the clearing of an ordering table, if it does not wrap around, or does so until its last word is on the
  first page again. One word written downwards to the start of a page is enough (`PageStartIsMissed`).
- A page list can name a block that has been deleted. In a run whose mapped blocks claim one page each
  this never happens (`CodeCacheRuns.Run`); from every state with a valid block that claims two pages
  it can (`TwoPagesCanDangle`), and such a state is reached from an empty cache
  (`DeletedBlockStaysListed`), since a block that ends on a page boundary claims the next page, too.
  The next store to that page makes the source use the deleted block. The model keeps the storage of
  deleted blocks, so from that point on a run of it no longer says what the source does;
  `CodeCacheRuns.UsesDeleted` marks the point.
- A block that stands twice on the list of a page can no longer be linked after a single store to that
  page (`BlockCounters.ListLinking`). The invalidation of all blocks takes the right to be linked from none, and neither does a store that follows it, exactly unless
  the frame number has gone back by one to eleven in between (`InvalidateAllSparesLinking`).
- Clearing all code pages runs over one page too many, which leaves the first page of every mirror
  window pointing behind RAM (`FastmemLut.FastmemLut.ClearCodePages`); the windows of RAM itself are right.
- If an ECM file can no longer be read as it was when it was opened, a failed chunk read keeps its
  buffer, and reading the sector again succeeds with it, exactly if the first missing chunk reaches the
  end of the sector (`EcmImage.ReadTwice`, `CutOff`). While the file stays as it was, no read fails
  (`EcmImage.OpenAndRead`).
- The cue parser lets 60 seconds and 75 frames pass. A position then compares to every well-formed one as
  its frame number does only from second 59 of minute 255 on (`CdImage.OrdersExactly`); of two
  positions in order, the first can be the later one exactly if it stands at 60 seconds and the second in
  the next minute, at second 0 with fewer frames (`OrderFailsExactly`, `CueSheet.FramesOrderedExactly`).
- Disc positions are 32 bits wide. The indices of a sheet tile the disc exactly if their frames number
  less than 2^32. With files of up to forty million frames and tracks of a second or more, that is so
  exactly if no track has an index 0 at 60 seconds before an index 1 in the next minute with fewer frames
  (`CueLayout.OpenAndParse`); `CueLayout.SixtySecondSheet` is a sheet that opens and does not tile.
- A cue sheet is refused after everything has been laid out if track 1 has no frames, its pregap counted
  and the sum cut to 32 bits (`CueLayout.Accepted`, `PositionedImage`, `NoFramesSheet`). Otherwise the
  final seek succeeds, on a disc that wraps around, too (`BoundaryReached`).
- A save state is loaded into a queue without looking at the saved size. The queue is valid afterwards
  exactly if that size is at most its capacity (`StateWrapper.StateWrapper.DoFifo`).
- The Reset command returns without ending itself, so it stays armed although a flag is set, and is
  executed a second time (`CdromHandshake.CDROM.ExecuteCommand`).

## Model

| member | source | states |
|---|---|---|
| CodeCacheRuns.Run | src/core/cpu_code_cache.cpp:277-362 | any sequence of lookups, links, branch resolutions, aligned CPU stores, direct stores, transfers, invalidations and flushes, from any sound state: at every point dispatch table and patched branches lead only to the code of valid blocks whose words are those in memory; at the end the dispatch table and the table of directly accessible pages of the host agree with it; and while mapped blocks claim one page each, no page list names a deleted block, so none is ever used |
| CodeCacheRuns.Step | src/core/cpu_code_cache.cpp:277-362 | each single operation, whenever the emulator may perform it, keeps the whole invariant, the host tables in agreement, and page lists tidy |
| CodeCacheRuns.TablesAreTrue | src/core/cpu_code_cache.cpp:166-177 | in every sound state the host dispatch table leads every fetchable pc to the code of its valid block or to the compiler and any other to the invalid-code function, and no direct write reaches a page that a valid block touches |
| CodeCacheRuns.InvIsSound | src/core/cpu_code_cache.cpp:467-579 | the invariant implies that every reachable piece of host code belongs to the valid block of its key, that a block below 2 MB or in the BIOS holds the words in memory, and that every page it touches lists it and has its code bit set |
| CodeCacheRuns.LinkGraph | src/core/cpu_code_cache.cpp:849-918 | as many links from a to b as back links from b to a, self-links and repeats included; a linked source is mapped and not deleted, a linked target is also valid |
| CodeCacheRuns.DeletedBlockStaysListed | src/core/cpu_code_cache.cpp:774-783 | from an empty cache, looking up a block that ends on a page boundary, one store and a failing revalidation lead to a page list that names a deleted block |
| CodeCacheRuns.StoreThenRevalidate | src/core/cpu_code_cache.cpp:510-579 | a store on one page that a valid block claims, then its revalidation: it fails exactly if the words have changed and the block does not compile or has been recompiled too often, and then, unless all was flushed, the block is deleted while every other page it claims lists it |
| CodeCacheRuns.TwoPagesCanDangle | src/core/cpu_code_cache.cpp:774-783 | from every sound state with a valid block on two pages, one byte stored and one failing compilation leave it deleted and listed |
| PageLists.InstallTidy | src/core/cpu_code_cache.cpp:820-832 | if page lists name only valid blocks, each on the page where it starts, and mapped blocks claim one page each, bringing a block into use keeps it so |
| PageLists.PageTidy | src/core/cpu_code_cache.cpp:774-783 | so does invalidating a page, since its blocks are on no other list |
| PageLists.StoreTidy | src/core/bus.cpp:565-612 | so does a CPU store |
| PageLists.DmaTidy | src/core/dma.cpp:502-549 | so does a transfer |
| PageLists.StoreLeavesListed | src/core/bus.cpp:565-612 | a store on one page invalidates the block and leaves it on the lists of all other pages it claims |
| CodeCache.CodeCache.LookupBlock | src/core/cpu_code_cache.cpp:467-508 | null entries and valid blocks are returned without any change; an invalidated block is revalidated, and may be linked if it could be before; a new key gets a linkable block with fresh counters and exactly the words the decoder takes, exactly if compilation succeeds; a failure leaves a null entry only if a flush was allowed; without a flush all other keys and blocks stay as they were |
| CodeCache.CodeCache.CompileNewBlock | src/core/cpu_code_cache.cpp:484-507 | the part for an unknown key: a fresh linkable block that serves the key, or a null entry, or nothing |
| CodeCache.CodeCache.RevalidateBlock | src/core/cpu_code_cache.cpp:510-579 | succeeds exactly if the words are unchanged, and then the block is as it was, or if it has not been recompiled for the 20th time within 100 frames and compiles, and then it has the words in memory, new code, and counters brought forward; on failure the key maps to null and the block is deleted, with the page lists as they were unless all was flushed; the invariant holds either way |
| CodeCache.CodeCache.RecompileBlock | src/core/cpu_code_cache.cpp:538-579 | within 100 frames of the frame on record, modulo 2^32, the count goes up by one, later it starts again at zero with this frame on record; the block is given up exactly if the count would reach 20, or if it does not compile; else it has the words in memory, new code, and may be linked if it could be before |
| CodeCache.CodeCache.CompileAgain | src/core/cpu_code_cache.cpp:555-579 | the compilation of a block that is in no table: it comes back with new words and code, or is deleted |
| BlockCounters.CountIsOfWindow | src/core/cpu_code_cache.cpp:538-553 | the count of a block is that of its last recompilations, fewer than twenty, all within a hundred frames of the compilation before them |
| BlockCounters.GivenUpInWindow | src/core/cpu_code_cache.cpp:538-553 | so a block is given up only at the twentieth recompilation in a row within a hundred frames of one compilation |
| BlockCounters.SlowlyRewritten | src/core/cpu_code_cache.cpp:538-553 | a block whose recompilations are more than five frames apart never is |
| CodeCache.CodeCache.CompileBlock | src/core/cpu_code_cache.cpp:581-697 | succeeds exactly if the decoder takes some words, there is room or a flush is allowed, and code generation succeeds; running out of room flushes everything except the block under compilation, or fails |
| CodeCache.CodeCache.DecodeBlock | src/core/cpu_code_cache.cpp:593-657 | the words taken are the only ones that make up a block: each can be fetched, and is valid, only the last is an exit or stands in a delay slot, without such an end the next word is not valid or cannot be fetched, and a delay slot holds no branch; if there is no such run of words, it fails |
| BlockDecoding.CollectedExactly | src/core/cpu_code_cache.cpp:593-657 | the words the decoder takes are the only ones that make up a block, and there are such words exactly if it does not fail |
| CodeCache.CodeCache.StillCurrent | src/core/cpu_code_cache.cpp:512-518 | true exactly if all stored words equal memory |
| CodeCache.CodeCache.InstallBlock | src/core/cpu_code_cache.cpp:520-527 | adds the block to page lists, code bits, fast map and block map at once, and re-establishes the full invariant |
| CodeCache.CodeCache.SetFastMap | src/core/cpu_code_cache.cpp:167-177 | the fast map and the host table that represents it change in one entry |
| CodeCache.CodeCache.SetRAMCodePage | src/core/bus.cpp:457-465 | the code bit and the entries of the page in the host table change together |
| CodeCache.CodeCache.ClearRAMCodePage | src/core/bus.cpp:467-475 | likewise |
| CodeCache.CodeCache.InvalidateBlock | src/core/cpu_code_cache.cpp:741-772 | the block is invalid, its links disappear on both sides, and the fast map forgets it; a linkable block invalidated by a store stays linkable exactly if more than ten frames have passed since the frame on record, modulo 2^32, and then this frame is on record; any other invalidation leaves it linkable, with a frame eleven back on record; a block that may not be linked stays so, and no other block changes in this respect |
| BlockCounters.LinkingSurvives | src/core/cpu_code_cache.cpp:741-759 | invalidated by stores at any frames, a block stays linkable exactly if each store comes more than ten frames after the one before, the first after the frame on record |
| BlockCounters.NeverLinkableAgain | src/core/cpu_code_cache.cpp:746-759 | once lost, the right to be linked is lost under any further invalidation |
| BlockCounters.ListLinking | src/core/cpu_code_cache.cpp:774-783 | invalidating a list of blocks in one frame: a block on it stays linkable exactly if it is listed once and more than ten frames have passed; a block listed twice never does |
| BlockCounters.StoreLinking | src/core/bus.cpp:565-612 | so does a store, for the blocks listed on its page |
| CodeCache.CodeCache.InvalidateBlocksWithPageIndex | src/core/cpu_code_cache.cpp:774-783 | the page list is invalidated in order, list and bit are cleared, and the page is no longer stale; of the blocks on the list those stay linkable that are listed once and have not been invalidated within ten frames; all others keep their counters |
| CodeCache.CodeCache.InvalidateAll | src/core/cpu_code_cache.cpp:785-797 | no block is left valid, all lists and bits are clear, no block loses the right to be linked, and the valid ones that have it get a frame eleven back on record |
| BlockCounters.InvalidateAllSparesLinking | src/core/cpu_code_cache.cpp:760-764 | after an invalidation that is not due to a store a linkable block stays linkable, and so it does after a store that follows in the same frame or later; it does not exactly if the frame number has gone back by one to eleven in between |
| CodeCache.CodeCache.RemoveReferencesToBlock | src/core/cpu_code_cache.cpp:799-818 | an invalidated block leaves block map, fast map and link graph, and nothing else changes |
| CodeCache.CodeCache.FallbackExistingBlockToInterpreter | src/core/cpu_code_cache.cpp:460-465 | the key maps to null, the block is deleted, and the invariant holds again |
| CodeCache.CodeCache.AddBlockToPageMap | src/core/cpu_code_cache.cpp:820-832 | the block is appended to exactly the lists of the pages it overlaps, whose bits are set |
| CodeCache.CodeCache.ClearState | src/core/cpu_code_cache.cpp:249-264 | every mapped block is deleted and every table emptied, those of the host included |
| CodeCache.CodeCache.Flush | src/core/cpu_code_cache.cpp:442-449 | afterwards nothing is mapped and the invariant holds |
| CodeCache.CodeCache.LinkBlock | src/core/cpu_code_cache.cpp:849-870 | adds one link on both sides, patches the branch, and keeps the invariant |
| CodeCache.CodeCache.UnlinkBlock | src/core/cpu_code_cache.cpp:872-918 | removes exactly the links that mention the block and points each of their branches back to its resolver |
| CodeCache.CodeCache.UnlinkPredecessors | src/core/cpu_code_cache.cpp:882-896 | every std::find_if finds its partner, and all links to the block disappear from its predecessors |
| CodeCache.CodeCache.UnlinkSuccessors | src/core/cpu_code_cache.cpp:897-912 | likewise for the back links of its successors |
| CodeCache.FindLink | src/core/cpu_code_cache.cpp:884-885 | the first link to the block, which exists |
| CodeCache.CodeCache.ResolveBranch | src/core/cpu_code_cache.cpp:1088-1107 | the branch ends up as a jump into the valid block of the key, recorded by a link, exactly if there is one after the lookup and both blocks may be linked, and as a return otherwise; a key that was not in the map has a linkable block exactly if it compiles |
| CodeCache.CodeCache.NextBlock | src/core/cpu_code_cache.cpp:318-351 | the block executed next is valid, serves the key, and is a recorded successor of the block left; a valid block of the key is always found, with nothing changed if it is linked already, and an unknown key is exactly if it compiles |
| CodeCache.CodeCache.WriteRam | src/core/bus.cpp:565-612 | both store variants: RAM holds the bytes, and exactly the valid blocks listed on the page stop being valid, unless a redundant store is skipped; the blocks listed lose the right to be linked exactly as under InvalidateBlock, or if they are listed twice |
| CodeCache.CodeCache.DirectStore | src/core/bus.cpp:398-407 | a store through an entry that is not null writes the byte the checked store would, and keeps the invariant without any invalidation |
| CodeCache.CodeCache.InvalidateCodePages | src/core/cpu_code_cache.h:143-152 | every page of the range whose bit is set is invalidated |
| CodeCache.CodeCache.DmaWrite | src/core/dma.cpp:482-549 | in both directions and for ordering tables, RAM holds the transferred words, at most the pages missed by the invalidated range stay stale, and the invariant holds whenever address and length satisfy the condition for covering the pages written |
| CodeCache.CodeCache.constructor | src/core/cpu_code_cache.cpp:226-247 | an empty cache satisfies the invariant |
| CodeCacheModel.UnlinkSites | src/core/cpu_code_cache.cpp:872-918 | after unlinking, the branches of links that mention the block point to a resolver and all others are untouched |
| CodeCacheModel.UnlinkLinks | src/core/cpu_code_cache.cpp:872-918 | unlinking keeps the counts of links and back links equal |
| CodeCacheModel.DetachInv | src/core/cpu_code_cache.cpp:741-772 | taking a listed block out of use keeps the invariant and makes exactly that block invalid |
| CodeCacheModel.InvalidateInv | src/core/cpu_code_cache.cpp:741-772 | so does invalidating it, whatever the counters and whatever page is stale at the time |
| CodeCacheModel.InvalidateListInv | src/core/cpu_code_cache.cpp:774-783 | invalidating a list, duplicates and deleted blocks included, keeps the invariant and leaves exactly the other blocks valid |
| CodeCacheModel.InvalidatePageInv | src/core/cpu_code_cache.cpp:774-783 | after invalidating a page no valid block touches it, and it is not stale any more |
| CodeCacheModel.WriteCoherent | src/core/bus.cpp:534-615 | a store can make only blocks stale that overlap a page it touches |
| CodeCacheModel.InstallInv | src/core/cpu_code_cache.cpp:520-527 | bringing a block with current words into use restores the full invariant |
| CodeCacheModel.ForgetInv | src/core/cpu_code_cache.cpp:799-818 | removing an invalid block keeps the invariant, with that block as the only listed one that is not mapped |
| CodeCacheModel.RetireInv | src/core/cpu_code_cache.cpp:460-465 | replacing it by null gives the full invariant back |
| CodeCacheModel.ClearInv | src/core/cpu_code_cache.cpp:249-264 | a flush leaves no valid block and a sound state, also in the middle of a compilation |
| CodeCacheModel.AddLinkInv | src/core/cpu_code_cache.cpp:849-870 | linking a mapped block to a valid one through a branch that is not linked yet keeps the invariant |
| CodeCacheModel.ClearBitNoBlock | src/core/bus.cpp:398-407 | no valid block touches a page whose code bit is clear |
| CodeCacheStores.StoreInv | src/core/bus.cpp:565-612 | invalidate-then-store and store-then-invalidate both keep the invariant, and agree |
| CodeCacheStores.InvalidateRangeInv | src/core/cpu_code_cache.h:143-152 | invalidating a page range leaves valid exactly the blocks listed on none of its pages |
| CodeCacheStores.DmaInv | src/core/dma.cpp:482-549 | if address and length satisfy the condition, a transfer of any data keeps every state sound |
| CodeCacheStores.DmaMisses | src/core/dma.cpp:482-549 | if they do not, there are a sound state and contents after which a valid block below 2 MB holds words that memory no longer has |
| CodeCacheStores.CoversExactly | src/core/dma.cpp:482-549 | for each direction, the pages written are all invalidated exactly under a condition on address and length: upwards, if the transfer ends before the end of RAM, or what wraps around stays on the first page and the invalidated range reaches the last; downwards, if it does not wrap around and does not begin at the start of a page, or ends on the first page again; for an ordering table, if it does not wrap around, or ends on the first page again |
| CodeCacheStores.PageStartIsMissed | src/core/dma.cpp:504-549 | one word written downwards to the start of any page is missed |
| CodeCacheStores.InsideCovers | src/core/dma.cpp:502-549 | a transfer that ends before the end of RAM is covered |
| CodeCacheStores.LastWordIsMissed | src/core/dma.cpp:502-549 | one word written to the last word of RAM is not |
| FastMap.FastMap.constructor | src/core/cpu_code_cache.cpp:101-143 | after allocation every reachable pc dispatches to the compiler and every other to the invalid-code function |
| FastMap.FastMap.AllocateTables | src/core/cpu_code_cache.cpp:88-99 | every slot of the range gets the biased address of a table of its own |
| FastMap.FastMap.Set | src/core/cpu_code_cache.cpp:167-177 | one entry changes: what is dispatched for every other aligned pc stays |
| FastMap.FastMap.Reset | src/core/cpu_code_cache.cpp:145-159 | every reachable pc dispatches to the compiler again, unreachable ones are untouched |
| FastMap.FastMap.DispatchesBlocks | src/core/cpu_code_cache.cpp:249-264 | representing the fast map of a sound cache, the table sends an aligned pc in an allocated range to the code of the valid block mapped there or else to the compiler, and any other pc to the invalid-code function |
| FastMap.OffsetIsCell | src/core/cpu_code_cache.cpp:55-77 | adding twice the pc to the biased pointer lands on the entry of that pc |
| FastMap.CellsDistinct | src/core/cpu_code_cache.cpp:55-77 | no two aligned pcs share an entry if one of them is in an allocated range |
| FastMap.TablesDistinct | src/core/cpu_code_cache.cpp:88-143 | allocated slots have distinct tables inside the allocation |
| FastMap.TotalTables | src/core/cpu_code_cache.cpp:117-121 | the allocation has 802 tables |
| FastMap.ReadableIsAllocated | src/core/bus.cpp:1349-1367 | every pc from which instructions can be fetched lies in an allocated range |
| FastmemLut.FastmemLut.SetCodePage | src/core/bus.cpp:457-465 | sets the bit and keeps every slot of the unmirrored windows true |
| FastmemLut.FastmemLut.ClearCodePage | src/core/bus.cpp:467-475 | clears the bit and keeps every slot of the unmirrored windows true |
| FastmemLut.FastmemLut.ClearCodePages | src/core/bus.cpp:502-524 | clears all bits; the unmirrored windows are true afterwards, from any state of the table, but the first page of every mirror window is left pointing behind the 2 MB |
| FastmemLut.FastmemLut.UpdateViews | src/core/bus.cpp:398-426 | all twelve windows map every page at its place, writable exactly if it holds no code |
| FastmemLut.FastmemLut.DirectAccess | src/core/bus.cpp:534-541 | a direct access through an unmirrored window uses the byte that the checked access would, and can write exactly if the code bit is clear |
| FastmemLut.FastmemLut.NoDirectWriteToCode | src/core/bus.cpp:477-500 | no direct write reaches a page that a valid block touches |
| FastmemLut.PageSet | src/core/bus.cpp:477-500 | setting one page in all windows changes no other page of an unmirrored window |
| FastmemLut.FastmemLut.SetLutPage | src/core/bus.cpp:297-301 | the read slot and the write slot of one page, and nothing else |
| AsyncReader.RingSafety | src/core/cdrom_async_reader.cpp:160-186 | in every interleaving the count never exceeds the ring, back is front plus the valid slots plus one in flight, and the slot being written is outside the valid window, also between the lock-free store of front and the decrement of the count |
| AsyncReader.WaitIsRight | src/core/cdrom_async_reader.cpp:135-158 | in every interleaving a successful wait hands over the data of the lba on the front slot, and that lba is the one last queued exactly if no seek of that request failed while read-ahead was still permitted |
| AsyncReader.WaitIsRightWithoutSeekErrors | src/core/cdrom_async_reader.cpp:135-158 | while all seeks succeed, a wait always hands over the lba last queued |
| AsyncReader.DerailedWaitReturnsWrongSector | src/core/cdrom_async_reader.cpp:222-291 | from every reachable state in which a seek has just failed while read-ahead is permitted, a wait can return another sector as a success, with the seek error unconsumed |
| AsyncReader.DerailedRunExists | src/core/cdrom_async_reader.cpp:59-94 | such a state is reachable: three requests lead to sector 12 being handed over for sector 99 |
| AsyncReader.WaitReportsSeekError | src/core/cdrom_async_reader.cpp:135-158 | in every interleaving a blocking wait that goes on reports a seek error exactly if the last seek has failed and no wait has reported that yet, whatever has been read since, and the error is then gone; otherwise it hands over the front slot |
| AsyncReader.ErrorCause | src/core/cdrom_async_reader.cpp:222-291 | a seek error is set only by a seek that failed with no other one asked for |
| AsyncReader.ErrorGetsReported | src/core/cdrom_async_reader.cpp:145-154 | once the error is set and no new seek is under way, a few steps of the read thread let a blocking wait go on and report it |
| AsyncReader.MediaIsExclusive | src/core/cdrom_async_reader.cpp:43-57 | the emulation thread reads uncached or swaps the image only while the read thread is parked |
| AsyncReader.MainPreserves | src/core/cdrom_async_reader.cpp:59-158 | every atomic step of the emulation thread keeps the invariant |
| AsyncReader.WorkerPreserves | src/core/cdrom_async_reader.cpp:160-291 | every atomic step of the read thread keeps the invariant |
| AsyncReader.InitInv | src/core/cdrom_async_reader.cpp:13-25 | a freshly started reader satisfies it |
| EccEdc.Generator.GenerateMode1 | src/common/cd_image_ecm.cpp:136-144 | all P and Q codewords have zero syndromes, the EDC is the bit-serial checksum of the first 0x810 bytes, the eight bytes behind it are zero, and nothing before offset 0x810 changes |
| EccEdc.Generator.GenerateMode2Form1 | src/common/cd_image_ecm.cpp:145-150 | likewise over subheader and data, with the header read as zero for the parity and left as it was |
| EccEdc.Generator.GenerateMode2Form2 | src/common/cd_image_ecm.cpp:151-154 | the checksum alone |
| EccEdc.Generator.EccGenerate | src/common/cd_image_ecm.cpp:107-130 | both codes hold over the sector, or over the sector with a zero header, and only the parity bytes change |
| EccEdc.Generator.EccComputeBlock | src/common/cd_image_ecm.cpp:79-105 | every vector becomes a codeword, and only the check symbols change |
| EccEdc.Generator.EccVector | src/common/cd_image_ecm.cpp:84-103 | the table-driven loop with its wrapping index computes the two check symbols of the vector |
| EccEdc.Generator.EdcComputeBlock | src/common/cd_image_ecm.cpp:66-77 | stores the bit-serial checksum little-endian |
| EccEdc.Generator.EdcPartial | src/common/cd_image_ecm.cpp:59-64 | the table-driven loop computes the bit-serial checksum |
| EccEdc.Generator.constructor | src/common/cd_image_ecm.cpp:16-53 | the three tables hold multiplication by 2, division by 3 and eight checksum shifts |
| Gf256.ChecksCompleteCodeword | src/common/cd_image_ecm.cpp:99-103 | data and check symbols form a codeword, and no other pair of symbols completes it |
| Gf256.Div3Inverts | src/common/cd_image_ecm.cpp:27-36 | the second table inverts multiplication by 3, on both sides |
| Edc.TableStep | src/common/cd_image_ecm.cpp:59-64 | one table step is eight bit-serial steps |
| Edc.PolynomialIsProduct | src/common/cd_image_ecm.cpp:45 | the constant of the checksum is the product of the two factors in section 14.3 of ECMA-130, bits reflected |
| Edc.ChecksummedIsZero | src/common/cd_image_ecm.cpp:66-77 | data followed by their stored checksum have checksum zero |
| EccEdc.PositionStep | src/common/cd_image_ecm.cpp:91-97 | stepping the index with one conditional subtraction follows the interleaving of the code |
| SectorCodec.ChecksDetermined | src/common/cd_image_ecm.cpp:79-105 | there is exactly one way to complete all vectors of a code |
| SectorCodec.ParityDetermined | src/common/cd_image_ecm.cpp:107-130 | exactly one way to complete both |
| SectorCodec.Mode1Determined | src/common/cd_image_ecm.cpp:136-144 | a mode 1 sector is determined by its first 0x810 bytes |
| SectorCodec.Mode2Form1Determined | src/common/cd_image_ecm.cpp:145-150 | a mode 2 form 1 sector by its first 0x818 |
| SectorCodec.DecodeSector | src/common/cd_image_ecm.cpp:447-501 | the decoded bytes are those of the sector that the stored bytes encode (IsSector): in mode 1 sync pattern, address, mode byte 1, data, checksum, zeros and parity; in mode 2 the subheader twice, data and checksum, and in form 1 the parity over a zero address |
| SectorCodec.DecodedExactly | src/common/cd_image_ecm.cpp:447-501 | byte by byte, the decoded bytes are the only ones that form the sector the stored bytes encode |
| SectorCodec.Fill | src/common/cd_image_ecm.cpp:447-495 | the buffer before generation holds sync pattern, mode byte, stored bytes and repeated subheader at their places, which DecodedExactly pins down on the decoded bytes |
| EcmImage.BuildMap | src/common/cd_image_ecm.cpp:242-358 | the map is the one the records of the file describe; then it partitions the disc bytes, stores its chunks in order without overlap and all inside the file, and has at least one sector |
| EcmEncoding.EncodedFileIsRead | src/common/cd_image_ecm.cpp:242-358 | a file written as signature, records of any kinds and counts, and end marker is opened exactly if its disc has a sector or more, and its disc is what the records decode to, one after the other |
| EcmEncoding.RecordsRead | src/common/cd_image_ecm.cpp:259-350 | from any record on, the records behind it are all read, up to the end marker |
| EcmEncoding.HeaderRead | src/common/cd_image_ecm.cpp:262-292 | kind and 32-bit count of every variable-length header are read back, and the data begin behind it |
| EcmEncoding.RecordRead | src/common/cd_image_ecm.cpp:305-340 | the chunks of a record decode to its disc bytes, behind those of the chunks before |
| EcmImage.ReadRecord | src/common/cd_image_ecm.cpp:259-302 | type and count of a record are decoded from its variable-length header, as EcmEncoding.HeaderRead says for encoded ones; end of file is an error |
| EcmImage.BuiltPresent | src/common/cd_image_ecm.cpp:242-358 | all data lie before the end marker, which has been read |
| EcmImage.AddChunks | src/common/cd_image_ecm.cpp:305-340 | the chunks of a record continue the partition and add its size in disc bytes |
| EcmImage.Partition | src/common/cd_image_ecm.cpp:305-340 | every disc byte lies in exactly one chunk |
| EcmImage.DiscAt | src/common/cd_image_ecm.cpp:411-509 | the decoded disc holds the bytes of each chunk at its place |
| EcmImage.SectorShows | src/common/cd_image_ecm.cpp:411-509 | every sector of the disc shows each chunk where they overlap: stored bytes as they are, and others as the sector they encode; a mode 1 chunk at the start of a sector is that sector, and a mode 2 chunk behind the first 16 bytes its rest |
| EcmImage.CDImageEcm.FindChunk | src/common/cd_image_ecm.cpp:413-417 | the search that starts one sector early finds the chunk that contains the offset |
| EcmImage.CDImageEcm.ReadChunks | src/common/cd_image_ecm.cpp:411-509 | succeeds exactly if all chunks that overlap the range are in the file; then the buffer holds disc bytes that cover it; a failure leaves the buffer ending with the missing chunk |
| EcmImage.CDImageEcm.ReadSector | src/common/cd_image_ecm.cpp:524-538 | with a buffer of disc bytes, a read succeeds exactly if its chunks are in the file, delivers the sector, and leaves such a buffer again |
| EcmImage.OpenAndRead | src/common/cd_image_ecm.cpp:524-538 | once a file has been accepted, any sequence of reads delivers the sectors of the disc, whatever the buffer has been left with |
| EcmImage.ReadTwice | src/common/cd_image_ecm.cpp:524-538 | if the file cannot be read any more as it was, reading a sector with a missing chunk fails, and reading it again succeeds exactly if the first missing chunk reaches the end of the sector |
| EcmImage.CutOff | src/common/cd_image_ecm.cpp:411-538 | an image of one raw sector whose file loses its last bytes after it was opened: the first read fails, the second succeeds |
| EcmImage.OneRawSectorMap | src/common/cd_image_ecm.cpp:242-358 | the map of that file |
| Wildcard.WildcardMatch | src/common/string_util.cpp:38-132 | terminates for all strings and returns exactly whether the subject matches the mask, for both branches, each with its own character equality; without letters this is what the flag asks for, too |
| Wildcard.CaseFlagIsInverted | src/common/string_util.cpp:40-66 | a comparison of "a" with "A" is answered true if it is to be case-sensitive, and false if not |
| Wildcard.FlagHonouredForMask | src/common/string_util.cpp:40-132 | a mask is answered as the flag says on every subject exactly if it holds no letter |
| Wildcard.FlagHonouredForSubject | src/common/string_util.cpp:40-132 | a subject is answered as the flag says for every mask exactly if it holds no letter |
| Wildcard.ExactIsFolded | src/common/string_util.cpp:40-132 | an exact match is a match up to case, so answers differ in one direction only |
| Wildcard.FlagIsIrrelevant | src/common/string_util.cpp:40-132 | where no two characters differ in case alone, both branches answer alike |
| Wildcard.MatchesExactly | src/common/string_util.cpp:40-132 | that is, exactly if the mask can be laid over the subject: a star over any stretch of it, a question mark over any one character, and any other character over one that it is equal to |
| Wildcard.LaterStarSubsumes | src/common/string_util.cpp:54-79 | one saved backtrack point is enough: once a later star is reached, every match found by moving an earlier segment is also one from here |
| Wildcard.PassStar | src/common/string_util.cpp:56-63 | passing a star keeps the answer equal to: match here, or resume the last star later |
| Wildcard.Backtrack | src/common/string_util.cpp:72-76 | so does resuming the last star one character further on |
| Wildcard.SubjectUsedUp | src/common/string_util.cpp:79-84 | with the subject used up, older backtrack points cannot match any more |
| Md5Digest.DigestOfPieces | src/common/md5_digest.cpp:151-240 | however a message is cut into updates, the digest is the one-shot digest of the whole |
| Md5Digest.MD5Digest.Update | src/common/md5_digest.cpp:151-197 | absorbs exactly the data, for any fill of the block buffer |
| Md5Digest.MD5Digest.Final | src/common/md5_digest.cpp:199-240 | returns the digest of all data absorbed |
| Md5Digest.MD5Digest.Pad | src/common/md5_digest.cpp:204-230 | both padding cases lead to the same padded message |
| Md5Digest.MD5Digest.AddLength | src/common/md5_digest.cpp:158-161 | the two-word bit counter counts modulo 2^64 |
| Md5Digest.CounterAdds | src/common/md5_digest.cpp:158-161 | the carry test and the shifted high word add up |
| Md5Digest.MD5Digest.UpdateWholeBlocks | src/common/md5_digest.cpp:183-196 | whole blocks are compressed in order and the rest is kept |
| Md5Digest.MD5Digest.Reset | src/common/md5_digest.cpp:140-149 | starts an empty message |
| Md5TestSuite.EmptyMessage | src/common/md5_digest.cpp:51-240 | the digest of the empty message is d41d8cd98f00b204e9800998ecf8427e, the first entry of the test suite in section A.5 of RFC 1321 |
| Md5Compression.Transform | src/common/md5_digest.cpp:51-133 | the unrolled transform is the compression function of section 3.4 of RFC 1321 |
| Md5Compression.OptimisedForms | src/common/md5_digest.cpp:37-41 | the optimised selection functions are those of the standard |
| Md5Compression.FourSteps | src/common/md5_digest.cpp:61-76 | four operations bring every register back to its own name |
| Md5Compression.SourceStepIsOperation | src/common/md5_digest.cpp:44 | a step of the source is an operation of the standard |
| CdImage.LbaRoundTrip | src/common/cd_image.h:74-90 | converting a frame number to a position and back loses exactly the multiples of 256 minutes |
| CdImage.PositionRoundTrip | src/common/cd_image.h:74-90 | exactly the well-formed positions survive the trip through a frame number |
| CdImage.OrderIsLbaOrder | src/common/cd_image.h:104-117 | on well-formed positions the comparison operators order by frame number |
| CdImage.OrdersExactly | src/common/cd_image.h:104-117 | a position compares to all well-formed ones as its frame number does exactly if it is well-formed, or stands at second 59 or later of minute 255 |
| CdImage.OrderFailsExactly | src/common/cd_image.h:104-117 | of two positions the parser lets pass, in order, the first is later exactly if it stands at 60 seconds and the second in the next minute at second 0 with fewer frames, and by at most 75 frames |
| CdImage.OrderFailsOnSixtySeconds | src/common/cd_image.h:104-117 | 60 seconds and 10 frames compare as earlier than one minute, but are later |
| CdImage.OneIndex | src/common/cd_image.cpp:298-313 | every position of a tiled disc lies in exactly one index |
| CdImage.CDImage.Seek | src/common/cd_image.cpp:100-123 | succeeds exactly for positions that an index contains, which on a tiled disc are those on the disc, and then the position is that of the index plus the offset, of the first such index at first; a failed seek changes nothing |
| CdImage.CDImage.SeekInTrack | src/common/cd_image.cpp:125-136 | succeeds exactly for positions below the length of the track that some index contains, wrapped to 32 bits; leaves the image there |
| CdImage.CDImage.ReadRawSector | src/common/cd_image.cpp:183-228 | delivers the sector at the current position and moves on by one: from the file, or 2352 bytes 0xAA in the lead-out, or zeros in a pregap that is not in the file; at the end of the disc or on a failed file read nothing moves |
| CdImage.CDImage.Read | src/common/cd_image.cpp:147-181 | delivers, of each sector from the current position on up to the first that cannot be read, 2048 bytes from offset 24, or all 2352, or 2340 from offset 12 |
| CdImage.CDImage.SeekAndRead | src/common/cd_image.cpp:100-228 | after Seek(l), reading delivers sectors l, l + 1, ... across index boundaries and empty indices |
| CdImage.CDImage.AddLeadOutIndex | src/common/cd_image.cpp:366-377 | on a tiled disc below 2^32 frames the lead-out starts where the last index ends, and the disc stays tiled |
| CdImage.CDImage.GetIndexForDiscPosition | src/common/cd_image.cpp:298-313 | an index that contains the position, or none exists |
| CueSheet.CueFile.CompleteLastTrack | src/common/cue_parser.cpp:396-435 | a track is completed exactly if it has an index 1 and no index precedes the one numbered before it; a zero pregap gives way to an index 0 |
| CueSheet.FramesOrderedExactly | src/common/cue_parser.cpp:396-435 | the frames of a completed track run forwards exactly if it has no such pair of successive indices |
| CueSheet.CueFile.HandleIndexCommand | src/common/cue_parser.cpp:289-333 | accepted exactly for a number up to 99 that the track does not have yet, a minute below 2^31, a second up to 60 and a frame up to 75; the minute is cut to eight bits |
| CueSheet.CueFile.HandleTrackCommand | src/common/cue_parser.cpp:233-287 | accepted exactly if the last track can be completed, a file is set and the number is valid |
| CueSheet.CueFile.HandlePregapCommand | src/common/cue_parser.cpp:335-365 | accepted exactly once per track, for a position within the same bounds |
| CueSheet.CueFile.HandleFileCommand | src/common/cue_parser.cpp:212-231 | accepted exactly for a named binary file |
| CueSheet.SetTrackLengths | src/common/cue_parser.cpp:437-465 | the loop computes the lengths that SetLengths describes |
| CueSheet.LengthsInOrder | src/common/cue_parser.cpp:437-465 | for tracks in order, every track followed by one of the same file gets the distance to its first position as length, and none starts after its successor |
| CueSheet.FoundIndex | src/common/cue_parser.cpp:467-477 | GetIndex finds a position exactly if there is one with the number |
| CueLayout.OpenAndParse | src/common/cd_image_cue.cpp:66-288 | which sheets open, the final seek to track 1 included; the image of one that does stands at the start of track 1, where an index begins; its indices follow one another in 32-bit positions, tile the disc up to the lba count exactly if their frames number less than 2^32, and are followed by the lead-out; for files of reasonable size and tracks of a second or more, exactly if no pregap runs backwards; for one file with tracks in file order, its frames from the first position to the end are covered once each, in order; every track starts at the sum, modulo 2^32, of the tracks and gaps before it and its own gap, and its length takes in its gap |
| CueLayout.PositionedImage | src/common/cd_image_cue.cpp:283-288 | lead-out and final seek: fails exactly if track 1 has no frames; else the image stands at the start of track 1, at the beginning of the first index that contains it |
| CueLayout.BoundaryReached | src/common/cd_image_cue.cpp:283-288 | where the indices, lead-out included, pass a boundary below 2^32, the first index that contains it begins there, whether or not the disc wraps around further on |
| CueLayout.StartReached | src/common/cd_image_cue.cpp:283-288 | so the seek to track 1 always finds an index |
| CueLayout.NoFramesSheet | src/common/cd_image_cue.cpp:69-288 | a sheet whose track 1 takes up no frames is refused |
| CueLayout.NoFramesRefused | src/common/cd_image_cue.cpp:69-288 | although all its tracks are laid, with 5000 frames |
| CueLayout.TilesExactly | src/common/cd_image_cue.cpp:66-284 | indices laid from 0 on in 32-bit positions tile the disc exactly if their frames number less than 2^32 |
| CueLayout.TotalDecides | src/common/cd_image_cue.cpp:69-273 | for files of up to forty million frames: below 2^32 if no pregap runs backwards; with tracks of a second or more, only then |
| CueLayout.TrackBounds | src/common/cd_image_cue.cpp:154-272 | a track whose frames run backwards before index 1 takes up all 32 bits if it is a second long; any other takes up little more than its length |
| CueLayout.PregapWraps | src/common/cd_image_cue.cpp:159-180 | the length of a pregap wraps exactly if index 0 stands at 60 seconds before an earlier frame of the next minute |
| CueLayout.SixtySecondSheet | src/common/cd_image_cue.cpp:69-284 | INDEX 00 00:60:10 with INDEX 01 01:00:00 opens, and its indices do not tile the disc |
| CueLayout.SixtySecondsFrames | src/common/cd_image_cue.cpp:159-272 | its track of 500 frames has a pregap of 2^32 - 10 |
| CueLayout.NextPlaced | src/common/cd_image_cue.cpp:159-222 | a track laid starts behind the frames of the tracks before it and its own gap, modulo 2^32; whether it shares the first file is decided by the file of the first index |
| CueLayout.StandingNext | src/common/cd_image_cue.cpp:69-273 | and laying further tracks changes nothing about it |
| CueLayout.TwoTrackSheet | src/common/cd_image_cue.cpp:184-201 | two tracks in one file, the second at 03:00:00 with neither INDEX 00 nor PREGAP: it starts at frame 13800 of the disc, or at 13650 if track 1 is audio |
| CueLayout.LayTracks | src/common/cd_image_cue.cpp:69-273 | the track loop lays indices one after the other, keeps the file covered, and adds up the frames of the tracks |
| CueLayout.LayTrack | src/common/cd_image_cue.cpp:120-272 | one track: pregap and indices follow on in 32-bit positions, with as many frames as the track has; the file is covered from the first position to the later of the track end and its last index; the track record starts at index 1 |
| CueLayout.LayPregap | src/common/cd_image_cue.cpp:159-219 | an index 0 gives a pregap in the file, as long as it is before index 1, modulo 2^32; otherwise a PREGAP gives its own frames, track 1 two seconds, and a later track two seconds exactly if it is in the first file and track 1 is not audio |
| CueLayout.LayIndices | src/common/cd_image_cue.cpp:225-272 | every index starts on the disc as far from index 1 as it says, modulo 2^32, and in the file at the position given for its number |
| CueLayout.SingleFileLength | src/common/cue_parser.cpp:437-465 | the length stored as minutes, seconds and frames leads exactly to the first position of the next track |
| CueLayout.OffsetFits | src/common/cd_image_cue.cpp:259 | the 32-bit file offset does not wrap for well-formed positions |
| PpfOverlay.CDImagePpf.AddPatch | src/common/cd_image_ppf.cpp:368-405 | succeeds exactly if every sector it touches exists and can be read; then all its bytes are in effect on top of earlier ones, else a prefix of them |
| PpfOverlay.CDImagePpf.AddPatches | src/common/cd_image_ppf.cpp:171-193 | all patches of a list take effect in order, exactly if each can |
| PpfOverlay.CDImagePpf.ReadSectorFromIndex | src/common/cd_image_ppf.cpp:432-441 | any file-backed sector reads as the sector of the parent image with all patches applied in order |
| PpfOverlay.CDImagePpf.AddSector | src/common/cd_image_ppf.cpp:382-395 | copying a sector succeeds exactly if the parent can read it, and changes nothing that is read |
| PpfOverlay.RunSector | src/common/cd_image_ppf.cpp:397-398 | a run of bytes inside one sector changes exactly that part of that sector |
| PpfOverlay.TargetIsOffset | src/common/cd_image_ppf.cpp:372-373 | below 2^32 sectors a patch byte goes to its offset behind the replacement offset |
| StateWrapper.RoundTrip | src/common/state_wrapper.h:34-167 | any list of scalars, bools, enumerations, arrays, vectors and queue contents is restored exactly and without error, whatever the variables held before |
| StateWrapper.TruncatedRead | src/common/state_wrapper.h:34-167 | from any proper prefix every value is cut to the bytes that are there, as StateFormat.CutAllAt says, and the error flag is set |
| StateWrapper.PrefixRead | src/common/state_wrapper.h:34-167 | both, for a reader at any position |
| StateWrapper.SaveAndLoad | src/common/state_wrapper.h:34-167 | any list of values and queues, saved to a growable stream and loaded from any prefix into variables and queues with any contents and head positions: what fits is exact, all later values are zero and later queues empty, and the error flag says whether anything is missing |
| StateWrapper.LoadAll | src/common/state_wrapper.h:34-167 | loading any prefix of saved bytes into any variables and queues that have room |
| StateWrapper.CopyQueue | src/common/state_wrapper.h:145-167 | a queue copied through a save state keeps its contents wherever the two heads are |
| StateWrapper.StateWrapper.DoScalar | src/common/state_wrapper.h:34-86 | writes the digits of the value to the base 256, the lowest first, and nothing else; or reads the number whose digits the next bytes are, and if they are not all there, or an error has occurred before, zero, with the error flag set |
| StateWrapper.StateWrapper.DoFlag | src/common/state_wrapper.cpp:29-44 | writes one or zero; any byte but zero reads as true, and false is read if there is none |
| StateWrapper.StateWrapper.DoArray | src/common/state_wrapper.h:88-93 | the elements one after the other, whose bytes StateFormat.FieldBytes gives |
| StateWrapper.StateWrapper.DoVector | src/common/state_wrapper.h:113-121 | the length, then as many elements, likewise |
| StateWrapper.StateWrapper.DoFifo | src/common/state_wrapper.h:145-167 | saved from the head on, restored into an emptied queue, which is valid exactly if the saved size is at most its capacity |
| StateWrapper.StateWrapper.DoAll | src/common/state_wrapper.h:34-167 | a list of values and queues does what its encoding says, each queue updated in place |
| StateFormat.FieldBytes | src/common/state_wrapper.h:34-167 | the bytes of each kind of field: digits low ones first, one byte for a flag, elements in a row, and before those of a vector or a queue their number in four bytes |
| StateFormat.FieldsFollow | src/common/state_wrapper.h:34-167 | the fields of a state stand one after the other |
| StateFormat.CutAllAt | src/common/state_wrapper.h:34-167 | of the first n bytes of a state each field gets those behind its start: a scalar that does not fit is zero, of the elements those that fit are exact and the others zero, and a vector or queue without its length is empty |
| StateWrapper.LeRoundTrip | src/common/state_wrapper.h:34-48 | reading the bytes of a scalar gives its value |
| StateWrapper.LeDigits | src/common/state_wrapper.h:34-48 | byte i of a scalar is its digit i to the base 256 |
| StateWrapper.FromLeDigits | src/common/state_wrapper.h:34-48 | and the other way round |
| SaveState.FifoQueue.PushRange | src/common/fifo_queue.h:58-75 | two block copies append the values, across the end of the storage; the queue stays valid exactly if there is room |
| SaveState.FifoQueue.Push | src/common/fifo_queue.h:41-47 | appends one value |
| SaveState.FifoQueue.Pop | src/common/fifo_queue.h:110-117 | removes and returns the first value |
| SaveState.FifoQueue.PopRange | src/common/fifo_queue.h:119-129 | removes and returns the first values in order |
| SaveState.FifoQueue.Remove | src/common/fifo_queue.h:92-100 | drops the first values |
| SaveState.FifoQueue.PushFromQueue | src/common/fifo_queue.h:132-139 | moves values in order until one queue is empty or the other full |
| SaveState.FifoQueue.PeekAt | src/common/fifo_queue.h:90 | the value at an offset from the head |
| SaveState.WindowGrows | src/common/fifo_queue.h:58-75 | the copies land behind the window, in order |
| SaveState.ByteStream.Read | src/common/byte_stream.cpp:292-305 | as many bytes as there are |
| SaveState.ByteStream.Write | src/common/byte_stream.cpp:576-585 | puts all bytes at the position, growing the stream, or fails on a read-only one |
| SaveState.ByteStream.Grow | src/common/byte_stream.cpp:631-635 | makes room without changing the contents |
| CdromHandshake.Run | src/core/cdrom.cpp:484-503 | in every run, acknowledging all flags delivers the pending asynchronous interrupt or else arms the queued command: nothing stays stuck |
| CdromHandshake.Step | src/core/cdrom.cpp:437-603 | every event keeps the handshake invariant, and does to interrupt flag, pending interrupt, response, command and event what the source does: in particular an armed command with enough parameters is answered by INT3 with the response of the command, or by INT5 with its error, and one without by INT5 with error 0x20 |
| CdromHandshake.CDROM.Acknowledge | src/core/cdrom.cpp:484-503 | flags left: nothing else happens; none left: the pending interrupt becomes current with its response, or the command event is armed exactly if a command is queued |
| CdromHandshake.CDROM.SendAsync | src/core/cdrom.cpp:571-603 | delivered at once, dropped if the same interrupt is unacknowledged, or kept waiting |
| CdromHandshake.CDROM.DeliverAsyncInterrupt | src/core/cdrom.cpp:590-603 | pending interrupt and response become the current ones |
| CdromHandshake.CDROM.BeginCommand | src/core/cdrom.cpp:792-829 | a queued command that expects more parameters stays and loses them; otherwise the new command is queued, armed exactly if no flag is set |
| CdromHandshake.CDROM.ExecuteCommand | src/core/cdrom.cpp:847-1373 | a command with too few parameters is answered by INT5 with error 0x20 behind the last response; Reset by INT3 with the status, both times; any other by exactly its reply, INT3 or INT5, in place of the last response, and a second response is asked for exactly if it is accepted; the command ends, except a first Reset, which stays queued and armed |
| CdromHandshake.Exchange | src/core/cdrom.cpp:437-603 | on an idle controller, parameters, a command other than Reset and VideoCD, its event and the acknowledgement: the CPU gets exactly the answer of the command, or INT5 with error 0x20 if there were too few parameters, and the controller is idle again |
| CdromHandshake.CDROM.RemoveMedia | src/core/cdrom.cpp:339-377 | drops the command, and an error interrupt takes the place of any pending one |
| CdromHandshake.CDROM.ExecuteSecondResponse | src/core/cdrom.cpp:1451-1477 | a second response always leaves a set flag: it is delivered with its interrupt, or waits as an asynchronous one |
| CdromHandshake.CDROM.UpdateCommandEvent | src/core/cdrom.cpp:1492-1505 | armed exactly if a command is queued and no flag is set |
| CdromHandshake.CDROM.ResetController | src/core/cdrom.cpp:106-163 | everything is idle |
| CdromHandshake.CDROM.WriteParameter | src/core/cdrom.cpp:454-462 | a full parameter queue drops its oldest byte |
| InstructionCache.ICache.Fetch | src/core/bus.cpp:1274-1312 | in the cached segments a cached address delivers what memory held when the most recent fill covering it was made, whatever memory holds now, and nothing changes; any other delivers what memory holds, and fills its line; the uncached segment bypasses the cache, all others fail |
| InstructionCache.Run | src/core/bus.cpp:1274-1312 | in any run of fetches, isolated writes and clears, with memory changing at will, every fetch of a cached address delivers what was loaded for it last, any other what memory holds then, outside the readable segments nothing |
| InstructionCache.CachedSinceFetch | src/core/bus.cpp:1050-1105 | a cached address was fetched, it or a word before it in its line, and nothing has disturbed the line since; the word delivered is the one memory held then |
| InstructionCache.FetchStaysCached | src/core/bus.cpp:1050-1105 | conversely, a fetch in a cached segment keeps the rest of its line cached until it is disturbed |
| InstructionCache.RunDeliversLoaded | src/core/bus.cpp:1274-1312 | if an operation of a run fills the line of an address from this word or an earlier one, nothing disturbs the line afterwards, and no later fetch fills it again, a fetch after the run delivers what memory held at that operation |
| InstructionCache.LoadedByLastFill | src/core/bus.cpp:1050-1081 | what is on record for a word is what memory held when its line was last filled from that word or an earlier one |
| InstructionCache.FillsExactly | src/core/bus.cpp:1274-1312 | a fetch in a cached segment fills exactly if no fetch of this word, or one before it in its line, has stayed undisturbed until then |
| InstructionCache.ICache.HitIsCached | src/core/cpu_core_private.h:32-55 | a tag matches exactly if the last event on its line was a fill of this line address from this word or an earlier one, and then the data are those of that fill |
| InstructionCache.CachedIsLoaded | src/core/bus.cpp:1050-1081 | for such an address that fill is the most recent one covering it |
| InstructionCache.ICache.FillICache | src/core/bus.cpp:1050-1081 | loads the words from the address to the end of the line and records the fill |
| InstructionCache.ICache.WriteICache | src/core/bus.cpp:1099-1105 | an isolated write leaves no address of its line cached |
| InstructionCache.ICache.Clear | src/core/bus.cpp:1083-1087 | no address is cached afterwards |
| InstructionCache.FillTagMatches | src/core/bus.cpp:1053-1075 | the tag of a fill matches exactly the addresses of its line from its word on |
| InstructionCache.MaskedComparison | src/core/cpu_core_private.h:44-55 | the masked comparison tests the line address and one invalid bit |
| InstructionCache.ICache.constructor | src/core/bus.cpp:1083-1087 | a cleared cache |

## Left out

Code cache and RAM:

- CodeCache.CodeCache.DecodeBlock: refuses every branch in a branch delay slot; the source accepts some, and then the block is not contiguous, which its page range does not account for.
- CodeCache.CodeCache.RemoveReferencesToBlock: only for invalidated blocks, which is how it is called; its branch for others, and RemoveBlockFromPageMap, are not reached.
- CodeCache.CodeCache.DmaWrite: takes the words that arrive; that an ordering table is cleared to pointers and a terminator is not stated. The request and block modes that call it are left out.
- CodeCache.CodeCache.constructor: code buffer and dispatcher allocation are not part of it.
- CodeCacheRuns.Run: steps that the emulator would not take in a state (such as resolving a branch twice) are skipped. After a deleted block has been used (`UsesDeleted`) the source has undefined behaviour, and the model does not describe it.
- Blocks that start in RAM and run past 2 MB, or start in a RAM mirror: they are compiled, listed and invalidated in the model, but no claim is made about their words.
- User-mode keys, 8 MB of RAM, Bus::Reset, loading a save state into the cache, unaligned stores.
- Host code is an opaque number; the code generator and the room in its buffer are parameters. The host code map, page-fault handlers, loadstore backpatching, memory-mapped fastmem and write protection are left out.
- Instruction ticks and the icache line count of a block.
- FastMap.FastMap.Set: 64-bit host pointers only.

Disc images:

- AsyncReader.WaitIsRight: safety only; that a wait returns at all is shown for seek errors only (`ErrorGetsReported`). Starting and stopping the thread, the non-threaded mode and subchannel data are left out. A request is queued only when none is outstanding, and media is swapped only when no seek is pending.
- EcmImage.BuildMap: a header count longer than 32 bits shifts by more than the word width in the source, which is undefined; here the excess is dropped. Seeking in the file never fails. Files and discs of 4 GB and more, for which the 32-bit offsets of the source would wrap, are not treated specially.
- EcmImage.CDImageEcm.ReadSector: a short file read is the only way a read fails.
- CueSheet.CueFile.HandleIndexCommand: takes the three numbers of a position as parsed; splitting lines into tokens, track flags and ignored commands are left out.
- CueLayout.OpenAndParse: a sheet whose tracks are all empty is refused, where the source would look at an index that does not exist. The alternative .bin name, and the frames of a single file whose tracks differ in sector size, are not treated specially.
- CdImage.CDImage.ReadRawSector: whether a file read succeeds depends on index and offset only. Subchannel generation is left out.
- PpfOverlay.CDImagePpf.AddPatches: the three patch file formats are left out; their records arrive as a list.
- CHD, PBP, MDS, M3U and BIN images, which repeat the table-of-contents pattern or depend on libraries.

Algorithms, save states and controllers:

- Md5Compression.Transform: the constants of the sine table are taken from the standard, not computed; little-endian hosts.
- StateWrapper.RoundTrip: strings, double-ended queues, markers and version checks are left out; enumerations and plain records are scalars of their width; stream sizes do not wrap at 2^32.
- StateWrapper.StateWrapper.DoFifo: a saved size above twice the capacity of the queue, for which the source writes behind its storage, is excluded.
- SaveState.ByteStream.Write: positions and sizes do not wrap at 2^32.
- SaveState.FifoQueue.Push: the caller leaves room, as in the source.
- CdromHandshake.CDROM.ExecuteCommand: command bodies are reduced to their reply, their second response and their effect on command, flag and event; times, drive states, sector buffers and audio are left out. The response queues are not bounded.
- InstructionCache.ICache.Fetch: the recompiler's bookkeeping of tags alone, and timing, are left out.
