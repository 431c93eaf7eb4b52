# Verified model of an NTFS library

This project models the parts of an NTFS write-capable library (`OkrPkg/ntfswin`) whose correctness is
hardest to see from the code, and proves what they are for. Each module follows one part of the library:

| module | what it models |
|---|---|
| `Lznt1Format`, `MatchTree`, `LazyParse`, `Lznt1Encoder`, `Lznt1Decoder`, `Lznt1Spill`, `CompressionSet` | the LZNT1 codec (section 2.5 of [MS-XCA]): match trees, choice of tokens, lazy compressor, decompressor and its behaviour on malformed streams, packing into clusters |
| `RunList`, `RunEditor` | the in-place run list edit after compressed data were overwritten |
| `Bitmap`, `FreeScan`, `FreeCount`, `ClusterAllocator`, `ClusterFree` | bit fields set window by window, the zoned cluster allocator with roll-back, freeing |
| `LinkedPool`, `HashIndex`, `LruList`, `LruModel`, `LruCache` | the LRU cache with its hash index |
| `IndexTree`, `IndexPath`, `IndexShape`, `IndexEdit`, `IndexSplit`, `IndexLookup`, `IndexUpdate`, `IndexRemove`, `IndexSuccessor`, `IndexOrder`, `DirectoryIndex` | the B+tree directory index |
| `AttributeRead`, `AttributeRecord` | reads through a run list, attribute records inside an MFT record |
| `PosixAcl`, `SidMapping`, `FilePermissions`, `AclMeaning`, `AclAccess` | sorting and merging Posix ACLs, users and groups as SIDs, modes as access control lists, the meaning of any such list here and in the system's own check |
| `Sequences` | options, distinct elements, removal at an index and slices, used by the other modules |

Code that changes buffers, lists and fields is modelled by classes, arrays and loops; what it promises is
stated on mathematical sequences, sets and maps. Three ideas carry the largest proofs:

* The walk over an index is one sequence of tokens, blocks and entries in collation order. The blocks it
  passes, the entries it lists and the splits still possible are read off that sequence, and a path from
  the root divides it into what is left of a block, the block, and what is right of it. Every edit of the
  tree is a replacement in the middle.
* What the compressor emits is told from the input alone: `LazyParse` defines the longest match of each
  position and the rule by which it is taken or put off, and with them the exact size of every sub-block.
* The match tree is described by the paths on which positions were entered. A position agrees with an
  earlier one at least as long as their paths do, so the walk of the search cannot pass a longer match.

## Facts about the code

* A block of exactly three zero bytes is not recognised as sparse: the comparison with fixed byte patterns
  in `compress.c:958-975` has no pattern for it. `CompressionSet.CompSet` states exactly when it is.
* On malformed streams the decompressor can store one literal behind the destination, because only
  phrases are checked against the end of a sub-block (`compress.c:418-425`). The model names that outcome
  `WildWrite` instead of excluding it. `Lznt1Spill.WildWriteHappens` gives a stream of nine bytes, and
  `Lznt1Spill.WildWriteExactly` the exact condition: it happens if and only if the tokens of some
  sub-block hold more than 4096 bytes while exactly 4096 bytes are left for it. Bytes behind the input are
  read as zero.
* `ntfs_ib_insert` reserves eight bytes more than an entry that already has a subnode needs
  (`index.c:1394-1395`); the model does the same.
* The reset in `ntfs_index_ctx_reinit` is commented out (`index.c:186-197`). The model follows its
  comment: the context is fresh after it.
* `ntfs_index_walk_down` does not check the depth of the path; `Next` and `ListFrom` are stated for trees
  below the limit of 32 levels, where lookup does not fail either.
* A user id whose low 30 bits are zero maps to a SID that maps back to root
  (`SidMapping.ImplicitRoundTrip`).
* `ntfs_attr_find` for any name but a given value compares values across names. An attribute added at the
  place such a search ends keeps the record sorted if and only if the search passes no named attribute of
  its type, which can be told from the record before (`AttributeRecord.SortedInsertAnyName`).
  `AttributeRecord.AnyNameBreaksOrder` gives a record where it does not.
* `ntfs_cluster_free_basic`, `ntfs_cluster_free_from_rl` and `ntfs_cluster_free` add the number of clusters
  asked for to the free count, whether or not these were in use. `FreeCount.FreedCount` states exactly
  when the count stays right, and `ClusterAllocator.FreeAfterTaking` that it does for what was allocated.
* A freed run that crosses a zone boundary only unmarks the zone of its first freed cluster as full.
* A hint that is the first cluster of a zone counts as the second pass over that zone
  (`lcnalloc.c:298-300`), so that what lies between it and the position kept for the zone is not searched.
  `ClusterAllocator.HintHidesCluster` gives a volume with a free cluster on which such a request fails. For all
  other hints that are clusters of the volume, and for none, a single cluster is found whenever a zone not
  marked full has one (`ClusterAllocator.Search.Thorough` is the condition).
* A last sub-block of four or five bytes right at the end of the source is refused by the decompressor
  (`Lznt1Decoder.StreamOutcome`); the compressor always puts a null header behind.
* `ntfs_cluster_free` frees what there is and then reports an error when the count reaches beyond the
  runs.

## Model

| member | source | states |
|---|---|---|
| `Lznt1Format.SplitsAgree` | OkrPkg/ntfswin/compress.c:229-234 | The offset width the compressor reaches by doubling is, at every position, 4 plus the number of halvings the decompressor counts, so both split a phrase word in the same place |
| `Lznt1Format.ShiftSplit` | OkrPkg/ntfswin/compress.c:263-267 | Offset and length packed into one word come out of it unchanged, and the word fits in 16 bits |
| `MatchTree.SameTurn` | OkrPkg/ntfswin/compress.c:153-160 | Two positions that have the same bytes in common with a node turn to the same side of it: why the binary tree never hides a longer match |
| `MatchTree.CandidatesStep` | OkrPkg/ntfswin/compress.c:134-160 | Going one step down keeps every position in sight that could still beat the best match so far |
| `MatchTree.MatchContext.BestMatch` | OkrPkg/ntfswin/compress.c:107-174 | What is reported is a true match with an earlier position, no earlier position matches longer (within the current length limit), and the position is entered so that this holds for all later searches; every walk ends |
| `Lznt1Encoder.CopyBackIsMatch` | OkrPkg/ntfswin/compress.c:240-268 | Copying from a true earlier match, overlapping or not, reproduces the input |
| `Lznt1Encoder.AdjustSplit` | OkrPkg/ntfswin/compress.c:229-234 | The widening loop reaches exactly the split for the position and shortens the longest match accordingly |
| `Lznt1Encoder.Delay` | OkrPkg/ntfswin/compress.c:247-258 | A match is put off exactly when the longest match one byte further, cut to what a phrase can express there, ends two bytes later or more |
| `LazyParse.Choice` | OkrPkg/ntfswin/compress.c:236-273 | The token at a position as a function of the input: the longest match that can be expressed, or one byte if it is shorter than three or put off |
| `LazyParse.SizeIs` | OkrPkg/ntfswin/compress.c:218-292 | The size of a block is that of the tokens chosen from its start to its end, with a tag byte for every eight, or 4098 |
| `Lznt1Encoder.EmitNext` | OkrPkg/ntfswin/compress.c:240-281 | The token stored stands for exactly the input bytes consumed and is the one the lazy rule chooses: the longest match of three bytes or more unless the next position has one that ends two bytes later, else the byte itself |
| `Lznt1Encoder.EmitAll` | OkrPkg/ntfswin/compress.c:218-282 | The loop ends with tokens that stand for exactly the input before the position reached, all of them the ones chosen, which is the end unless the output is too long; an all-zero block gives the fixed token pattern |
| `Lznt1Encoder.WrittenBound` | OkrPkg/ntfswin/compress.c:275-287 | The output holds at most the data, a header and one tag byte per group |
| `Lznt1Encoder.CompressBlock` | OkrPkg/ntfswin/compress.c:191-303 | For every block of 1 to 4096 bytes one well-formed sub-block is written that means the block zero-padded; its size is exactly that of the tokens chosen, and it is raw exactly when these do not take fewer than 4098 bytes; at most 2 + n + (n+7)/8 bytes; an all-zero block gives one fixed token pattern; nothing outside the 4100-byte window is touched |
| `Lznt1Decoder.TokenReadBack` | OkrPkg/ntfswin/compress.c:416-479 | A valid token read back from its bytes extends the output by its meaning |
| `Lznt1Decoder.GroupReadBack` | OkrPkg/ntfswin/compress.c:405-480 | The tokens behind a tag byte decode to the group the tag was built from |
| `Lznt1Decoder.SubBlockReadBack` | OkrPkg/ntfswin/compress.c:340-487 | A sub-block, packed or raw, decodes to its meaning at any place in a stream |
| `Lznt1Decoder.StreamReadBack` | OkrPkg/ntfswin/compress.c:320-487 | Every well-formed stream followed by a null header decodes to exactly what it means, whatever bytes follow and whatever the destination size, as long as it fits |
| `Lznt1Decoder.StreamOutcome` | OkrPkg/ntfswin/compress.c:320-487 | The same for a stream at the end of the source or one that fills the destination; only a last sub-block with less than six bytes up to the end of the source is refused, the ones before it being decoded |
| `Lznt1Decoder.CopyPhrase` | OkrPkg/ntfswin/compress.c:457-477 | The two-part copy (block copy, then byte by byte) is the byte-by-byte copy of a phrase, for every overlap |
| `Lznt1Decoder.Decompress` | OkrPkg/ntfswin/compress.c:320-487 | For every byte stream, well-formed or not, status and bytes stored are those of the recursive decoder, on failure the bytes of the sub-blocks completed before it; it terminates |
| `Lznt1Spill.SubBlockShows` | OkrPkg/ntfswin/compress.c:391-480 | What becomes of a packed sub-block follows from the sizes of its tokens alone: complete, refused, one byte too long, or a literal stored behind the destination |
| `Lznt1Spill.WildWriteExactly` | OkrPkg/ntfswin/compress.c:320-487 | For every stream and destination a literal is stored behind the destination if and only if some sub-block for which exactly 4096 bytes are left holds more |
| `Lznt1Spill.RoomyIsSafe` | OkrPkg/ntfswin/compress.c:405-425 | With more than 4096 bytes left for it no sub-block stores anything behind the destination |
| `Lznt1Spill.WildWriteHappens` | OkrPkg/ntfswin/compress.c:418-425 | A stream of nine bytes that stores a literal behind a destination of 4096 bytes |
| `CompressionSet.LooksZeroSound` | OkrPkg/ntfswin/compress.c:958-975 | A sub-block that matches one of the three byte patterns means nothing but zeroes |
| `CompressionSet.ZeroBlockLooksZero` | OkrPkg/ntfswin/compress.c:958-975 | A compressed block of n zeroes matches a pattern if and only if n is not 3 |
| `CompressionSet.PackBlocks` | OkrPkg/ntfswin/compress.c:943-984 | The packed sub-blocks mean the input so far and the zero flag is right; packing is given up exactly when the sub-blocks would not save a cluster |
| `CompressionSet.CompSet` | OkrPkg/ntfswin/compress.c:913-1003 | Written clusters decode to the input whatever follows them on disk; at least one cluster is saved; "sparse" is answered if and only if all bytes are zero and the length modulo 4096 is not 3; "incompressible" if and only if the tokens chosen for the blocks would not save a cluster, and their size tells how many clusters are written |
| `CompressionSet.BlockThereAndBack` | OkrPkg/ntfswin/compress.c:191-487 | Compressing a block, appending a null header and decompressing gives the block zero-padded to 4096 bytes |
| `RunEditor.EditIsExact` | OkrPkg/ntfswin/compress.c:1076-1233 | The edited run list maps every virtual cluster as before except that exactly the freed ones are a hole; runs stay adjacent, no two holes are neighbours, the end marker stays |
| `RunEditor.CompressedAttribute.FreeFollowing` | OkrPkg/ntfswin/compress.c:1135-1157 | Walking over the freed runs counts whole runs and clusters, trims the last one and frees exactly their clusters; the count of clusters freed reaches the number asked for |
| `RunEditor.CompressedAttribute.PlaceHole` | OkrPkg/ntfswin/compress.c:1159-1233 | In every case of the number of whole runs freed (none, one, several, three-part split) the array ends up as the edited list |
| `RunEditor.CompressedAttribute.OverwriteFree` | OkrPkg/ntfswin/compress.c:1076-1233 | The in-place edit is the exact edit, frees exactly the clusters that became a hole, and the count gathered while freeing lowers the compressed size by exactly their bytes |
| `RunEditor.CheckRuns` | OkrPkg/ntfswin/compress.c:1012-1046 | From the last run at or before the given one that starts a compression block, the check accepts exactly the lists whose runs are adjacent, whose holes end at compression blocks and (full check) are not neighbours |
| `RunEditor.GoodPasses` | OkrPkg/ntfswin/compress.c:1012-1046 | A list in the form the edit keeps passes that check |
| `RunEditor.CompressedAttribute.CheckAll` | OkrPkg/ntfswin/compress.c:1012-1046 | The full check accepts every list in the form the edit keeps, from whichever run it starts |
| `RunEditor.CompressedAttribute.OverwriteAndCheck` | OkrPkg/ntfswin/compress.c:1694-1696 | The full check at the end of a write never fails after the edit, which is the exact one |
| `Bitmap.SetBit` | OkrPkg/ntfswin/bitmap.c:56-64 | Exactly one bit changes |
| `Bitmap.GetAndSetBit` | OkrPkg/ntfswin/bitmap.c:90-101 | The old bit is returned and exactly that bit is set |
| `Bitmap.FirstByte` | OkrPkg/ntfswin/bitmap.c:148-165 | The partial first byte is right also for a run inside one byte, where the remaining count becomes -1 |
| `Bitmap.SetLastByte` | OkrPkg/ntfswin/bitmap.c:172-210 | The partial last byte is set when the run ends in this window and only then |
| `Bitmap.SetBitsInRun` | OkrPkg/ntfswin/bitmap.c:115-255 | For every start, count and value exactly the bits of the run get the value, no other bit changes, the windowed loop ends, and it never ends with bits left |
| `FreeScan.MaxEmptyBitRange` | OkrPkg/ntfswin/lcnalloc.c:116-169 | The start of the first longest run of clear bits of the window, or -1 if there is none |
| `ClusterAllocator.Search.ScanBuffer` | OkrPkg/ntfswin/lcnalloc.c:335-419 | One window visit starts at the hint, or else at the first longest free run of the window, and takes consecutive free clusters from there, up to the next cluster in use, the end of the window or the count asked for; the run list grows by exactly them |
| `ClusterAllocator.Search.PassDone` | OkrPkg/ntfswin/lcnalloc.c:447-472 | After a pass either the second pass of the zone begins or the rank of the zones still to come drops; the search gives up only with all zones marked full |
| `ClusterAllocator.Search.SwitchZone` | OkrPkg/ntfswin/lcnalloc.c:472-527 | The zone left is done, marked full and its position kept behind the last run; the next one is that of the fixed order, the lower data zone being possible twice; the search goes on at the position kept for it up to its end, in a single pass if that position is its start, and an empty zone is recognised |
| `ClusterAllocator.Search.Find` | OkrPkg/ntfswin/lcnalloc.c:315-538 | The search ends; it gives up only when all three zones are marked full, and without having found a cluster only when every zone that was not marked has none; in a zone not full it takes first a free hint, or else the longest free run of the first window |
| `ClusterAllocator.Search.constructor` | OkrPkg/ntfswin/lcnalloc.c:277-308 | The search starts at the hint, or at the position kept for the zone asked for |
| `ClusterAllocator.Restored` | OkrPkg/ntfswin/lcnalloc.c:554-567 | Clearing the bits of the clusters taken gives back the bitmap bit for bit |
| `ClusterAllocator.FreeAfterTaking` | OkrPkg/ntfswin/lcnalloc.c:554-610 | Freeing what an allocation took restores the bitmap bit for bit, and these clusters meet the condition under which the free count stays right |
| `FreeCount.FreedCount` | OkrPkg/ntfswin/lcnalloc.c:590-608 | Adding the number of clusters freed to a right free count gives a right one if and only if these clusters were in use and none occurs twice; it is never too low |
| `ClusterAllocator.FreeFromRl` | OkrPkg/ntfswin/lcnalloc.c:576-610 | Exactly the bits of the run list are cleared and the free count grows by their number; it stays the number of clear bits if and only if all these clusters were in use and none occurs twice; the zones in which runs start are no longer marked full |
| `ClusterAllocator.Volume.FreeBasic` | OkrPkg/ntfswin/lcnalloc.c:617-646 | Exactly the bits of the run are cleared and counted, nothing for a negative LCN; the free count stays right if and only if all of them were set; the zone of the first cluster is no longer marked full and will be searched from there |
| `ClusterAllocator.ClusterAlloc` | OkrPkg/ntfswin/lcnalloc.c:235-567 | On success the runs are contiguous from the start VCN, have exactly count clusters, all different, and are exactly the bits that went from 0 to 1; the first cluster is the free hint or the start of the longest free run where the last search of the zone left off, and always the hint or in a window of a pass over a zone not marked full; the free count stays the number of zero bits; on failure bitmap and free count are as before; a single cluster is found whenever a zone not marked full has one, for all hints but the first cluster of a zone |
| `ClusterAllocator.HintHidesCluster` | OkrPkg/ntfswin/lcnalloc.c:298-300 | A volume with one free cluster and a hint for which the request fails |
| `ClusterFree.FreeRuns` | OkrPkg/ntfswin/lcnalloc.c:717-751 | Freeing from a run on clears exactly the allocated clusters up to the count or the end |
| `ClusterFree.ClusterFree` | OkrPkg/ntfswin/lcnalloc.c:664-771 | For every start and count (or -1) exactly the allocated clusters of that VCN range are freed and counted; the free count stays the number of clear bits if and only if they were in use and none occurs twice; exactly the zones of the first clusters freed in each run are no longer marked full; -1 is returned exactly when the count reaches beyond the runs |
| `LinkedPool.LinkedUnlink` | OkrPkg/ntfswin/cache.c:335-359 | Bypassing an element of a list threaded through the pool leaves the list without that element |
| `HashIndex.ChainsDrop` | OkrPkg/ntfswin/cache.c:103-138 | Taking a link out of one chain keeps all other chains and the free list apart and intact |
| `HashIndex.Index.Insert` | OkrPkg/ntfswin/cache.c:63-97 | The entry is put at the head of its chain; fails exactly for an illegal hash or when no link is free |
| `HashIndex.Index.Drop` | OkrPkg/ntfswin/cache.c:103-138 | The link of the entry leaves its chain and becomes free; fails exactly for an illegal hash or when the entry is not in the chain |
| `LruCache.Cache.constructor` | OkrPkg/ntfswin/cache.c:472-548 | An empty cache whose entries and hash links are all free |
| `LruCache.Cache.Search` | OkrPkg/ntfswin/cache.c:157-185 | The search through a hash chain finds what a plain search of the contents finds |
| `LruCache.Cache.Fetch` | OkrPkg/ntfswin/cache.c:147-205 | A hit moves the entry to the front and nothing else; a miss changes nothing; reads and hits are counted |
| `LruCache.Cache.Enter` | OkrPkg/ntfswin/cache.c:212-327 | A key already there is left alone, not moved and not overwritten; otherwise the item goes to the front, and only when all entries are in use the least recent one leaves; hashing is never dropped |
| `LruCache.Cache.Remove` | OkrPkg/ntfswin/cache.c:432-445 | Exactly that entry leaves |
| `LruCache.Cache.Invalidate` | OkrPkg/ntfswin/cache.c:374-430 | Hashed or not, exactly the entries selected leave, the others keep their order, and the number of removals is returned |
| `LruCache.Cache.Replay` | OkrPkg/ntfswin/cache.c:147-445 | Over every run of fetch, enter, remove and invalidate, the last hashed or sequential, the linked cache does what the bounded most-recent-first sequence does |
| `LruModel.RecentStays` | OkrPkg/ntfswin/cache.c:40-55 | Whatever is called, an item stays cached as long as fewer than capacity other keys are touched, no invalidation selects it and it is not removed |
| `IndexPath.Focus` | OkrPkg/ntfswin/index.c:1328-1336 | The whole index in order is what is left of a path, the block at its end, and what is right of it |
| `IndexPath.Refocus` | OkrPkg/ntfswin/index.c:1328-1336 | Writing blocks at or below the end of a path changes neither the path nor anything beside it |
| `IndexEdit.Halves` | OkrPkg/ntfswin/index.c:1045-1098 | Copying the tail and cutting it, END taking over the subnode of the median, divides the walk of a node at the median |
| `IndexEdit.GrownWalk` | OkrPkg/ntfswin/index.c:1298-1326 | Inserting an entry with a new subnode behind it puts the entry between the old subnode and the new one |
| `IndexSplit.SplitUnderBlock` | OkrPkg/ntfswin/index.c:1420-1454 | Splitting a block below another block keeps all entries in order and adds exactly the new block to the reachable ones |
| `IndexSplit.SplitUnderRoot` | OkrPkg/ntfswin/index.c:1420-1454 | The same where the parent is the index root |
| `IndexSplit.ReparentKeeps` | OkrPkg/ntfswin/index.c:1123-1216 | Moving the root into a new block keeps all entries in order and adds exactly that block |
| `IndexRemove.TakeoutEntry` | OkrPkg/ntfswin/index.c:1567-1593 | Taking an entry out together with its removed subnode leaves the rest in order and the bitmap exact |
| `IndexRemove.TakeoutEnd` | OkrPkg/ntfswin/index.c:1620-1633 | The same for the END subnode, END taking over that of the last entry |
| `IndexSuccessor.SwapLeaf` | OkrPkg/ntfswin/index.c:1743-1780 | After the exchange with the successor, the leaf that still holds the successor lies directly behind it in order |
| `IndexUpdate.PlacedUnique` | OkrPkg/ntfswin/index.c:1567-1593 | There is one place only for an entry, so re-adding the roaming entry restores the order it was taken from |
| `DirectoryIndex.FindInNode` | OkrPkg/ntfswin/index.c:489-580 | The first entry whose key is not smaller, and whether it is the key |
| `DirectoryIndex.Index.GetFree` | OkrPkg/ntfswin/index.c:958-993 | The lowest clear bit, and exactly that bit is set |
| `DirectoryIndex.Index.Lookup` | OkrPkg/ntfswin/index.c:675-805 | In a sorted index of any depth below the limit the key is found if and only if it is there; otherwise the position is in a leaf with all smaller keys before and all greater ones after it; the recorded path leads to it |
| `DirectoryIndex.Index.Reparent` | OkrPkg/ntfswin/index.c:1123-1216 | The in-order entries are unchanged and the bitmap still marks exactly the reachable blocks |
| `DirectoryIndex.Index.RootInsertMedian` | OkrPkg/ntfswin/index.c:1339-1366 | Either the median is in the root, or the root was moved down and nothing else changed |
| `DirectoryIndex.Index.BlockInsert` | OkrPkg/ntfswin/index.c:1374-1412 | Either the entry is in the block, exactly when it fits with eight bytes to spare, or an ancestor was split with the entries unchanged |
| `DirectoryIndex.Index.SplitBlock` | OkrPkg/ntfswin/index.c:1420-1454 | On OK and on KEEP_SEARCHING alike the in-order entries are unchanged, the tree is well-formed, and the bitmap marks exactly the reachable blocks; the number of splits still possible drops |
| `DirectoryIndex.Index.InsertHere` | OkrPkg/ntfswin/index.c:352-362 | Inserting at the place found keeps the order and adds exactly the entry |
| `DirectoryIndex.Index.Add` | OkrPkg/ntfswin/index.c:1457-1517 | Exactly one entry is added in its place, a duplicate is refused if and only if the key is there; the retry loop ends |
| `DirectoryIndex.Index.Takeout` | OkrPkg/ntfswin/index.c:1567-1593 | The entry taken out is back in its place; if it cannot be added again, the other entries are all there |
| `DirectoryIndex.Index.RemoveLeaf` | OkrPkg/ntfswin/index.c:1635-1687 | Whatever case applies (parent entry, END, empty parents up to the root), the entries outside the removed block remain, in order, and the bitmap is exact; on failure one of them is lost |
| `DirectoryIndex.Index.Leafify` | OkrPkg/ntfswin/index.c:1599-1614 | A root whose last subnode went becomes an empty leaf |
| `DirectoryIndex.Index.RemoveNode` | OkrPkg/ntfswin/index.c:1689-1795 | An entry of an inner node is gone and nothing else, or room was made with the entries unchanged; on failure nothing is gone, or the entry and one roaming entry; the empty-leaf error cannot occur |
| `DirectoryIndex.Index.DeleteFromLeaf` | OkrPkg/ntfswin/index.c:332-342 | Exactly that entry of the leaf is gone |
| `DirectoryIndex.Index.RemoveEntry` | OkrPkg/ntfswin/index.c:1808-1849 | The entry pointed at is gone and nothing else, no non-root leaf is left empty; on failure nothing is gone, or the entry and one roaming entry |
| `DirectoryIndex.Index.Remove` | OkrPkg/ntfswin/index.c:1851-1891 | The old in-order entries with exactly that key gone, or not found if and only if it was not there; on failure, possible at the depth limit only, all entries are there or all but that one and one roaming entry; the retry loop ends |
| `DirectoryIndex.Index.DescendLeft` | OkrPkg/ntfswin/index.c:1712-1728 | The path goes on to the first leaf behind the entry; given up only at the greatest depth |
| `DirectoryIndex.Index.WalkDown` | OkrPkg/ntfswin/index.c:1934-1966 | The same for the walk of the iteration, which has no depth check |
| `DirectoryIndex.Index.WalkUp` | OkrPkg/ntfswin/index.c:1974-2019 | The position in the order is the same before and after walking up |
| `DirectoryIndex.Index.Next` | OkrPkg/ntfswin/index.c:2048-2089 | From any position, found or not, the next entry in order, or none exactly when all entries have been passed; the recorded path leads to it |
| `DirectoryIndex.Index.ListFrom` | OkrPkg/ntfswin/index.c:2021-2089 | Lookup of a key, present or absent, and repeated next visit exactly the entries that are not smaller than the key, in order |
| `DirectoryIndex.Index.Replay` | OkrPkg/ntfswin/index.c:1457-1891 | Every run of insertions and removals does to the index what it does to a sorted list; it is given up only at the depth limit, with all calls before carried out and at most the key of the last one and one roaming entry gone |
| `AttributeRead.FindVcn` | OkrPkg/ntfswin/attrib.c:851-907 | The run that contains the VCN, or the end marker |
| `AttributeRead.ImageAt` | OkrPkg/ntfswin/attrib.c:1044-1049 | The bytes of a run stand at its VCN in the attribute, whatever the runs before it |
| `AttributeRead.Gather` | OkrPkg/ntfswin/attrib.c:1044-1114 | Whatever the run boundaries, the bytes gathered are the matching slice of the runs one after another, zeroes for holes |
| `AttributeRead.Pread` | OkrPkg/ntfswin/attrib.c:912-1120 | The matching slice of the value, cut at the data size, zeroes beyond the initialized size; the exact count, also where the runs end too early; the rest of the buffer is untouched |
| `AttributeRecord.TilesUnique` | OkrPkg/ntfswin/attrib.c:2747-2763 | Bytes can be read as a row of attributes and an end marker in one way only |
| `AttributeRecord.SortedInsert` | OkrPkg/ntfswin/attrib.c:2747-2826 | An attribute put where the search ended keeps the order by type, name and value |
| `AttributeRecord.SortedInsertAnyName` | OkrPkg/ntfswin/attrib.c:2764-2826 | After a search for any name and a given value the order is kept if and only if that search passes no named attribute of its type, told from the record before: one such that neither it nor an attribute of the type before it has a greater value |
| `AttributeRecord.AnyNameBreaksOrder` | OkrPkg/ntfswin/attrib.c:2764-2826 | A record with one named attribute in which the added unnamed one is out of order |
| `AttributeRecord.Record.constructor` | OkrPkg/ntfswin/mft.c:379-396 | A record laid out empty is a row of no attributes with its end marker of length zero, in use up to behind the marker and zero from there |
| `AttributeRecord.Record.Find` | OkrPkg/ntfswin/attrib.c:2712-2832 | From any attribute on, for a name, no name or any name, or type 0 for enumeration: the first attribute that matches, or the one to insert before; all earlier ones are smaller, that one is greater; a match is found if and only if all attributes before it are smaller, which in a sorted record with names compared before values means if and only if it is there |
| `AttributeRecord.Record.MakeRoom` | OkrPkg/ntfswin/attrib.c:3684-3722 | Everything from the position on is moved up by the aligned size; refused exactly when it does not fit or the position is past the end marker |
| `AttributeRecord.Record.Add` | OkrPkg/ntfswin/attrib.c:3741-3826 | The record stays an exact tiling with one more attribute at the place found that has the given type, name, value and flags, the next instance number, the file-name mark and exact length; it stays sorted, for a search for any name with a value exactly under the condition of `SortedInsertAnyName` on the record before; nothing changes on EEXIST or ENOSPC |
| `AttributeRecord.Record.Resize` | OkrPkg/ntfswin/attrib.c:4450-4498 | For every new size: the record stays an exact tiling with that attribute gone (size 0) or of the new length, its contents kept; used bytes exact; nothing changes on failure; refused exactly when it does not fit, or when an index root would grow into the last 120 bytes of a record that has them free |
| `AttributeRecord.Record.AddAndBackOut` | OkrPkg/ntfswin/attrib.c:3826-3840 | After an attribute was added, with the status of the addition, resizing it to 0 restores attributes and used bytes exactly |
| `PosixAcl.SortPosix` | OkrPkg/ntfswin/acls.c:1058-1121 | Access and default entries are each sorted by tag and id, as a stable permutation of themselves; the rest is untouched |
| `PosixAcl.StableIsPermutation` | OkrPkg/ntfswin/acls.c:1058-1121 | What `SortPosix` calls a stable permutation has the same entries the same number of times |
| `PosixAcl.InversionsSwapped` | OkrPkg/ntfswin/acls.c:1083-1090 | Each exchange removes exactly one inversion, so the sort ends |
| `PosixAcl.MergeLists` | OkrPkg/ntfswin/acls.c:1353-1414 | For any two lists the target gets the merge, and nothing behind it changes |
| `PosixAcl.MergedStrict` | OkrPkg/ntfswin/acls.c:1353-1414 | Merging two strictly sorted lists gives a strictly sorted list |
| `PosixAcl.MergedUnion` | OkrPkg/ntfswin/acls.c:1353-1414 | The merge has exactly the entries of the first list and those of the second whose tag and id the first lacks |
| `SidMapping.NoOverflow` | OkrPkg/ntfswin/acls.c:460-463 | The addition to the last sub-authority never overflows 32 bits, for a valid pattern |
| `SidMapping.FindImplicit` | OkrPkg/ntfswin/acls.c:384-431 | The loop over the carries finds the id the pattern gives, 0 if there is none |
| `SidMapping.FindSid` | OkrPkg/ntfswin/acls.c:438-519 | The SID that `MappedRoundTrip` speaks of: the administrators for 0, the first explicit entry of the id, else the pattern with twice the low 30 bits of the id, plus one for a group, added to the last sub-authority and the high bits to the one before, else none |
| `SidMapping.FindId` | OkrPkg/ntfswin/acls.c:526-565 | The id that `MappedRoundTrip` speaks of: the first explicit entry with the SID, else what the pattern gives, else 0 |
| `SidMapping.RootMapped` | OkrPkg/ntfswin/acls.c:438-565 | Root maps to the administrators, and their SID to root if and only if no entry before the pattern names them |
| `SidMapping.ImplicitRoundTrip` | OkrPkg/ntfswin/acls.c:384-519 | Id to SID to id is the identity for every group id, and for every user id unless its low 30 bits are zero, which gives 0 |
| `SidMapping.ImplicitSidReturns` | OkrPkg/ntfswin/acls.c:384-519 | SID to id to SID is the identity as long as the difference to the pattern fits in 31 bits |
| `SidMapping.MappedRoundTrip` | OkrPkg/ntfswin/acls.c:438-565 | Through a mapping list an id comes back if and only if no earlier entry has its SID and, for a user mapped by the pattern, the low 30 bits are not all zero |
| `SidMapping.UsersAreNoGroups` | OkrPkg/ntfswin/acls.c:438-519 | No user SID of a pattern is a group SID of it |
| `FilePermissions.ModeRoundTrip` | OkrPkg/ntfswin/acls.c:2312-2617 | For every 12-bit mode, files and directories, and owner and group each a user or the administrators: interpreting the ACL built gives the mode, in all three schemes |
| `FilePermissions.BuildAcls` | OkrPkg/ntfswin/acls.c:2312-2617 | The ACL built reads as the mode it was built from |
| `FilePermissions.WhatIsInherited` | OkrPkg/ntfswin/acls.c:2312-2617 | Entries of a file are not inherited; those of a directory are, but for the special bits, and the denial of execution is for new files only |
| `FilePermissions.FullAccess` | OkrPkg/ntfswin/acls.c:2561-2592 | Administrators and system always get all rights an owner of a file can have |
| `AclAccess.SystemChecks` | OkrPkg/ntfswin/acls.c:2312-2617 | Checked entry by entry in order, the ACL built gives the owner, members of the group and all others exactly the read, write and execute rights of the mode; an owner that is its own group has the rights of both, and where the administrators own, owner and group also have those of the world |
| `AclAccess.AdministratorsMay` | OkrPkg/ntfswin/acls.c:2561-2576 | Administrators may read, write and execute whatever the mode, also as owner or group |
| `AclAccess.DenialsNeeded` | OkrPkg/ntfswin/acls.c:2368-2420 | No entry denies what another grants to the same one, nor what nobody else would give |
| `FilePermissions.BuildPermissions` | OkrPkg/ntfswin/acls.c:3989-4007 | The loop over the ACEs is the tally of the scheme that applies, concluded and merged; for an ACL built from a mode it returns that mode |
| `AclMeaning.ModeMeans` | OkrPkg/ntfswin/acls.c:3068-3423 | For every ACL: each bit of the mode is set if and only if one of the specific or generic rights it stands for is allowed and not denied by the entries that speak about owner, group or world, in each of the three schemes with its own rules for sharing rights and for owners not mentioned |
| `AclMeaning.StepIs` | OkrPkg/ntfswin/acls.c:3100-3148 | Which entries speak about whom, and that each adds its rights to what is allowed or denied to that one only |
| `FilePermissions.WorldIs` | OkrPkg/ntfswin/acls.c:245-267 | Everybody, users and authenticated users are the world |
| `FilePermissions.OwnersAre` | OkrPkg/ntfswin/acls.c:275-281 | Owners are the administrators and the user accounts of a machine or domain |
| `FilePermissions.OwnerTallied` | OkrPkg/ntfswin/acls.c:3068-3148 | What each scheme collects from the entries about the owner |
| `FilePermissions.WorldTallied` | OkrPkg/ntfswin/acls.c:3346-3423 | What each scheme collects from the entries for world, administrators, system and special flags |

## Left out

- Device, EFI and ioctl code, logging, platform glue: reads and writes of the volume are taken to succeed.
- Memory allocation failure and I/O error paths, in all modules.
- `ntfs_runlists_merge`, mapping pairs, MST fixups, MFT record allocation: not part of this model; run lists are given, attributes fully mapped.
- `ntfs_attr_pwrite`, hole filling, truncation and expansion of attributes, attribute lists: they rest on the code above.
- The `usedcnt == 0` branches of `ntfs_compress_overwr_free` and the appending path of `ntfs_compress_free`.
- The Posix ACL round trip (`buildacls_posix`, `ntfs_build_permissions_posix`), which is approximate by its own comment.
- Mapping file parsing, `dir.c`, `inode.c`, `efs.c`, `logfile.c`, `bootsect.c`, `collate.c`: orchestration and field checks.
- Byte layout of index blocks, ACLs and SIDs: index nodes are sequences of entries with lengths, an ACL is a sequence of ACEs, a SID its fields; offsets are not modelled. In `AttributeRecord` the bytes are.
- DirectoryIndex.Index.RootTruncate: whether the file record has room for a longer root is left open for each call; a root of one entry is taken to fit, and a root of any size it can have to fit an index block.
- DirectoryIndex.Index.Lookup: keys are compared by their rank, an integer standing for a total collation order; errors of the collation function are not modelled.
- DirectoryIndex.Index.SplitBlock: a full block is taken to hold three entries or more, from a bound on the entry length.
- DirectoryIndex.Index.Remove: the check for reparse points that are no symbolic links is left out; when a roaming entry cannot be added again because the tree is too deep, the call fails and that entry is lost, as in the source.
- ClusterAllocator.ClusterAlloc: no claim that clusters come from the zone asked for, nor, for more than one cluster, that a failure means that too few are free: the code scans whole windows and takes one run per visit.
- Bitmap.SetBitsInRun: the byte position kept in an `int` is unbounded here, so its overflow on very large bitmaps is not modelled.
- LruCache.Cache.Enter: the variable part of an item is part of its data and its allocation succeeds; callbacks on eviction are not modelled.
- LruCache.Cache.Invalidate: the entries selected by a hashed call are taken to have the hash given, as the comparison functions of the callers do.
- AttributeRead.Pread: compressed, encrypted and resident attributes take other paths and are not modelled.
- AttributeRecord.Record.Find: names are compared by a rank with the unnamed one first, standing for the collation by the upcase table.
- AttributeRecord.Record.Add: the reserved byte and padding keep what was there; registration in an attribute list and the directory flag are not modelled.
- AclMeaning.ModeMeans: entries either allow or deny; entries of other types, whose rights the code passes over, are not part of a list here.
- SidMapping.MappedRoundTrip: bit operations are written as arithmetic on 32-bit numbers.
- MatchTree.MatchContext.BestMatch: node pointers are positions, and a link that is not set is -1.
- Lznt1Encoder.EmitAll: setting a tag bit known to be clear is an addition.
- CompressionSet.CompSet: rounding to clusters is arithmetic, for any cluster size.
