# A model of the search engine and of the store below it

The repository is a small full-text search engine (`src/`, `varint/`) on top of a copy of
LevelDB (`leveldb/`). This project models both halves in Dafny and proves what they promise.

**The store.** Writes go into a memtable under increasing sequence numbers; memtables become
sorted table files on seven levels; compactions merge files and drop entries nobody can see any
more. The main theorem is that over every run of writes, memtable switches, flushes, moves,
compactions and snapshots, a read at a live snapshot returns the last write not after it. Below
it: the version edits and their replay from the manifest, the merge loop with its drop rules, the
choice of compaction inputs, the iterators, table files with their blocks, filters and index, the
log, write batches, group commit and its refinement of the store's writes, and the skiplist with concurrent readers.

**The index.** Words lead to posting lists. Modelled are the block-compressed list with its
skipping iterator, the lazy union and intersection, paging in `Engine::search`, the batched index
with its write-back cache, the double-array trie that numbers the words, and the Huffman coder over
a bit vector.

In the modules of the store (`InternalKeys` up to `Database`, the iterators, the skiplist) a user
key is its rank in the comparator's order, an integer. The order of keys as bytes, the shortened
separators made from it and everything that is written to disk are in `Comparators`, `Blocks`,
`Filters`, `Tables`, `TableBuilders`, `EditCodecs`, `RecordTexts`, `ManifestCodecs` and `ManifestFiles`, over bytes.

The class `da` of the trie is split into two objects: `CedarSlots.Slots` has the array, the sibling
chains, the rings of empty slots and the block lists, `CedarTries.Cedar` follows and relocates
nodes in them. The lists of children and the paths that `Cedar` carries are ghost state.

## Model

| member | source | states |
|---|---|---|
| InternalKeys.CompareIsLess | leveldb/db/dbformat.cc:50-64 | the sign of the comparison is a strict order, user keys ascending and sequence numbers with types descending, and it is zero only on equal keys |
| Versions.FindFile | leveldb/db/version_set.cc:91-110 | the binary search returns the first file whose largest key is at or after the key |
| Versions.OverlapsIsSharing | leveldb/db/version_set.cc:112-125 | a file is neither before nor after a range exactly if some user key lies in both |
| Versions.SomeFileOverlapsRange | leveldb/db/version_set.cc:126-160 | true exactly if some file meets the range, on sorted disjoint files as on level 0 |
| Versions.GetOverlappingInputs | leveldb/db/version_set.cc:536-577 | the files of the least range around the given one that no file straddles at level 0, or of the given range above |
| Versions.PickLevelForMemTableOutput | leveldb/db/version_set.cc:507-533 | the deepest level at most 2 to which the table may sink: no level down to it overlaps the range, no level passed has too much below, and one of these stops it there |
| Versions.WalkFinds | leveldb/db/version_set.cc:337-434 | on a valid version the walk over level 0, newest file first, and one file of each deeper level returns the newest entry visible at the snapshot, or none when there is none |
| Versions.Get | leveldb/db/version_set.cc:337-434 | the loops over levels and candidate files compute that walk |
| VersionEdits.Builder.Apply | leveldb/db/version_set.cc:671-715 | deletions and additions of one edit reach the builder's state, an addition cancelling a pending deletion of its number |
| VersionEdits.Builder.SaveTo | leveldb/db/version_set.cc:717-763 | the merge of base and added files by smallest key and number, less the deleted ones |
| Replays.BatchedReplay | leveldb/db/version_set.cc:910-1022 | one builder that takes all edits and saves once gives the version that installing the edits one at a time gave, if none adds a number to a level twice |
| Replays.ReplayIsExactIffNoneComesBack | leveldb/db/version_set.cc:910-1022 | when no file is named twice under one level, smallest key and number: the two agree exactly if no number that is taken out of a level comes back to it to stay |
| Manifests.RunsAddOnce | leveldb/db/version_set.cc:825-907 | over every run of the store no number is added to a level twice by the logged edits, and installing them one by one from nothing gives the current version |
| Manifests.SnapshotInstalls | leveldb/db/version_set.cc:1068-1096 | installing the edit that lists every file of a version where nothing was gives that version |
| Manifests.ManifestSinceRebuilds | leveldb/db/version_set.cc:825-907 | for a manifest opened at any moment of a run, with a snapshot first, the batched replay is the version of the last state |
| Manifests.ManifestRebuilds | leveldb/db/version_set.cc:910-1022 | so for every run the batched replay of its manifest is the version of its last state |
| ManifestCodecs.Recover | leveldb/db/version_set.cc:938-1022 | for arbitrary records: which error is reported, or which version, numbers and file counters result |
| ManifestCodecs.ReadsUntilStopped | leveldb/db/version_set.cc:938-985 | all records are read exactly if each decodes and names no other comparator; else the first that does not gives the error |
| ManifestCodecs.RecoversIfTold | leveldb/db/version_set.cc:986-1022 | recovery of decoded edits succeeds exactly if some tell the next file, the log and the last sequence, and takes the last number told of each |
| ManifestCodecs.RecoveredIsInstalled | leveldb/db/version_set.cc:910-1022 | the records encoded from a list of edits are read back as these edits, and recovery, when it succeeds, gives what installing them gave |
| ManifestCodecs.FieldsOf | leveldb/db/version_edit.cc:41-86 | every edit whose numbers and keys fit the format has fields that stand for it, with the log, file and sequence numbers put in |
| ManifestFiles.WriteManifest | leveldb/db/version_set.cc:825-907 | the bytes a run writes from the moment its manifest is opened: the log of a snapshot record and one record for each edit, with the numbers of the moment |
| ManifestFiles.RecoverFile | leveldb/db/version_set.cc:910-1022 | recovery from arbitrary bytes: failure if the log reader comes to damage or reports corruption, and otherwise what its records give, which stand in intact fragments of the file |
| ManifestFiles.RecoverRun | leveldb/db/version_set.cc:910-1022 | over every run, for a manifest opened at any moment of it and cut at any byte: recovery gives version and numbers of the state right after the last edit wholly before the cut, and fails if there is none; uncut, the version of the last state |
| EditCodecs.EncodedEdit.DecodeFrom | leveldb/db/version_edit.cc:109-210 | on any bytes: success exactly if the fields parse, and then the object holds them |
| EditCodecs.EditRoundTrip | leveldb/db/version_edit.cc:41-210 | decoding an encoded edit into a cleared one gives every field back, compaction pointers appended behind those the object kept |
| RecordTexts.DecodesFields | leveldb/db/version_edit.cc:109-210 | any bytes decode exactly if they are one field after another, tags, numbers and slices as texts, and the edit then has all of them |
| Compactions.Compaction.IsBaseLevelForKey | leveldb/db/version_set.cc:1448-1467 | with keys asked in order the per-level cursors answer exactly whether a deeper level may hold the key |
| Compactions.ChooseInputs | leveldb/db/version_set.cc:1311-1376 | the second set is exactly what of the next level meets the range of the files given; the first is these files, or exactly the files around both sets whenever these are more, stay below the size limit and meet no further file |
| Compactions.PickCompaction | leveldb/db/version_set.cc:1257-1308 | the inputs are chosen from the first file past the compaction pointer, or the first of all, at level 0 with all the least closed range around it takes; the grandparents are what meets the inputs two levels down, and the new pointer is where the first set ends |
| Compactions.CompactRange | leveldb/db/version_set.cc:1378-1411 | there is a compaction exactly if the range meets the level; its inputs are chosen from what the range meets, cut above level 0 behind the file that brings them to the target size |
| Compactions.LevelZeroClosed | leveldb/db/version_set.cc:536-577 | what the restarting search at level 0 leaves behind shares no user key with older versions of what it takes |
| Compactions.DropsAreInvisible | leveldb/db/db_impl.cc:906-949 | dropping shadowed entries and obsolete deletion markers changes no read at any live snapshot |
| CompactionWork.MakeInputIterator | leveldb/db/version_set.cc:1224-1255 | over picked inputs of a valid version the merging iterator's sequence is sorted and has exactly the entries of both input sets |
| CompactionWork.DoCompactionWork | leveldb/db/db_impl.cc:855-1020 | from that iterator: the outputs are sorted disjoint files that hold exactly the input entries that are not dropped, and end where they have to |
| OutputCuts.OutputsAreWellCut | leveldb/db/version_set.cc:1469-1492 | the outputs of the merge loop: each was below the size limit before its last entry, within each at most the allowed bytes two levels down end, and each but the last was full or was followed by a stop |
| Installs.ReplaceKeepsVersion | leveldb/db/version_set.cc:825-907 | a version stays valid when inputs closed under older versions are replaced by files made of their entries |
| Store.GetIsLastWrite | leveldb/db/db_impl.cc:1077-1122 | at any state that keeps the invariant, memtable, immutable memtable and version together return what the last operation on the key up to the snapshot wrote |
| Store.RunsReadLastWrites | leveldb/db/db_impl.cc:1077-1122 | over every run, after any of its actions: a read of a key at the present or at a snapshot taken and not released answers as the operations asked for by the writes say, the value of the last one on the key up to that number if it is a put, and nothing if it is a delete or there is none |
| Store.SnapshotsReadAlike | leveldb/db/db_impl.cc:1077-1153 | between any two moments at which a snapshot is live no flush, move, compaction or write changes what is read at it |
| Database.DBImpl.Get | leveldb/db/db_impl.cc:1077-1122 | the object's read answers as the operations written until the snapshot say, or all of them without one |
| Database.DBImpl.CompactMemTable | leveldb/db/db_impl.cc:503-534 | a table with the entries of the immutable memtable is in the level picked, all other files stay, and the invariant of the reads stays |
| Database.DBImpl.BackgroundCompaction | leveldb/db/db_impl.cc:655-738 | the inputs are gone from both levels, the outputs are in the lower one and nothing else has changed; a lone file moves as it is exactly under the conditions for it, and otherwise the outputs have exactly the entries that are not dropped, with at most one from before the oldest snapshot per key and no deletion marker that nothing deeper needs |
| Mergers.MergedContents | leveldb/table/merger.cc:14-153 | the merge of children with distinct keys is sorted and has exactly their entries |
| Mergers.MergingIterator.Prev | leveldb/table/merger.cc:85-120 | from either direction the iterator stands one entry before in that merge, or is not valid |
| TwoLevels.TwoLevelIterator.Seek | leveldb/table/two_level_iterator.cc:91-96 | the iterator stands at the first entry of the concatenated blocks at or after the target, empty blocks skipped |
| DbIters.WinnersAreTheMap | leveldb/db/db_iter.cc:173-261 | the entries shown are one per user key, in order, each with the value a read at the snapshot returns |
| DbIters.DBIter.Prev | leveldb/db/db_iter.cc:205-261 | the last shown entry before the current one, from either direction |
| SkipLists.SkipList.Insert | leveldb/db/skiplist.h:333-367 | the new key is linked on all its levels and the contents grow by it alone |
| SkipListRuns.ReadsAreLinearizable | leveldb/db/skiplist.h:258-367 | beside one inserter, a search without locks returns the right answer for the keys at one moment between its start and its end |
| SkipListRuns.ReadsSeeFinishedInserts | leveldb/db/skiplist.h:258-367 | every insert that was over when a search began is seen by it, and no key whose insert had not begun at its answering moment |
| Codings.ReadVarint | leveldb/util/coding.cc:112-166 | the shifting loop yields the value of the groups modulo the result's width and the rest of the input, or nothing on a varint cut short or too long |
| Texts.WordAt | leveldb/util/coding.cc:112-170 | at any place of any bytes a number is read exactly if one stands there: marked bytes, an unmarked one, not too many, worth their groups of seven bits in the word's width |
| Texts.SliceAt | leveldb/util/coding.cc:172-194 | so is a slice: its length and that many bytes |
| WriteBatches.WriteBatch.InsertInto | leveldb/db/write_batch.cc:42-134 | what reaches the memtable is every update before the first error, numbered from the batch's sequence, and the status names that error |
| WriteBatches.InsertIntoDeliversAll | leveldb/db/write_batch.cc:42-145 | a batch built by puts, deletes and appends is read back whole and in order |
| RecordTexts.ParseStops | leveldb/db/write_batch.cc:42-81 | any bytes are read as the updates that stand there one after another, up to the end or to a place where none stands, whose tag says which error is given |
| GroupCommits.GroupRules | leveldb/db/db_impl.cc:1223-1268 | the group is the longest prefix of the queue in which no sync write follows a leader without sync and the sizes stay within the limit, a leader that exceeds it alone excepted; null batches are passed over |
| GroupCommits.ReadersSeeWholeWrites | leveldb/db/db_impl.cc:1162-1221 | at every moment of every run a reader at the last sequence sees exactly the updates of the writes that succeeded, in queue order, numbered without gaps |
| GroupCommits.WritesAreBlocks | leveldb/db/db_impl.cc:1162-1221 | each of those writes has one block of numbers, between those of earlier and later writers |
| GroupCommits.SnapshotsAreStable | leveldb/db/db_impl.cc:1162-1221 | what a snapshot of the last sequence shows never changes |
| GroupCommits.BuildBatchGroup | leveldb/db/db_impl.cc:1223-1268 | the batch handed on holds the updates of the group in order, and no other writer's batch is changed |
| GroupStores.RunRefines | leveldb/db/db_impl.cc:1162-1221 | every run of the writers is a run of the store's write steps, one for each published group, from the store as it was to the store with what the successful writers wrote |
| GroupStores.ReadersReadTheStore | leveldb/db/db_impl.cc:1077-1221 | at every moment of such a run a lookup at the last sequence: the last update on the key among those of the successful writes decides, a put by its value and a delete by none; without one the store answers as before the run; and the memtables show exactly these updates |
| Logs.Writer.AddRecord | leveldb/db/log_writer.cc:27-97 | the file grows by the record's fragments and nothing else, with trailers where a header does not fit |
| Logs.Reader.ReadRecord | leveldb/db/log_reader.cc:59-262 | on an arbitrary file: which record is returned and what corruption is reported |
| LogChecks.RecordsAreIntact | leveldb/db/log_reader.cc:59-262 | on any file, checksums on: every record handed out is the payload of fragments of the file whose stored checksum is that of their type and bytes, each right behind the one before, none used twice |
| LogChecks.DamageIsReported | leveldb/db/log_reader.cc:185-262 | every fragment the reader comes to whose checksum does not match, or whose length leaves its block, is reported with the rest of the block |
| LogChecks.DamageEndsRecord | leveldb/db/log_reader.cc:59-183 | there the bytes in hand are reported too, and reading goes on in the next block with none, so no later fragment is joined to them |
| LogChecks.BytesConserved | leveldb/db/log_reader.cc:59-262 | every payload byte the reader comes to, and every byte it skips for damage, is in a record handed out, in a report, or in a last record that the file does not finish |
| LogRoundTrips.RoundTripUnderTruncation | leveldb/db/log_reader.cc:59-262 | a written log cut anywhere gives back exactly the records that lie wholly before the cut, with no corruption reported |
| Comparators.FindShortestSeparator | leveldb/util/comparator.cc:29-51 | the shortened key is at or after the start and before the limit; it is cut at the first difference, raised by one, exactly where a byte lies between |
| Comparators.SeparatorIsBetween | leveldb/db/dbformat.cc:68-84 | as internal keys too: at or after the last key and before the next |
| Blocks.EntryRoundTrip | leveldb/table/block.cc:53-74 | the short and the long form of an entry header both decode to what was encoded |
| Blocks.BlockIter.Seek | leveldb/table/block.cc:165-203 | over any bytes no read leaves the block, and over a built block the iterator stands at the first pair at or after the target |
| Blocks.BlockIter.Prev | leveldb/table/block.cc:144-163 | over a built block the pair before, by going back to a restart point and forward again |
| Blocks.FinishedIsBlock | leveldb/table/block_builder.cc:57-107 | what the builder finishes opens as a block of exactly the pairs added |
| Filters.CreateFilter | leveldb/util/bloom.cc:35-63 | exactly the bits of the keys' probes are set, in an array of the computed size |
| Filters.NoFalseNegative | leveldb/util/bloom.cc:65-86 | every key put in is answered with true |
| Filters.MatchIsExact | leveldb/util/bloom.cc:63-87 | a key is answered with true exactly if every bit it probes is probed for some key put in |
| Filters.ProbesAreSteps | leveldb/util/bloom.cc:49-60 | probe j is at the hash plus j times its rotation, in 32 bits |
| Filters.FinishedMayMatch | leveldb/table/filter_block.cc:78-108 | the reader finds the filter that the keys of a block offset went to, and answers exactly as that one |
| Tables.ReadBlock | leveldb/table/format.cc:66-141 | checksums on: contents are handed out exactly if they are stored in the file with the checksum of their bytes |
| Tables.BlockDecides | leveldb/table/table.cc:216-246 | the block the index picks holds the answer for the user key of the target, or there is none |
| Tables.BlocksAscend | leveldb/table/table.cc:216-246 | the pairs of the blocks one after the other are strictly ascending and carry trailers |
| Tables.LookupIsNewest | leveldb/db/version_set.cc:273-287 | the first pair at or after (user, s), kept if it is of the user key, is the newest one written at or before s |
| Tables.Get | leveldb/table/table.cc:216-246 | a lookup in a table file gives the newest pair of the user key at or before s whenever one exists |
| TableBuilders.BuildTable | leveldb/db/builder.cc:17-73 | the file written, below 4 GB, opens as a table of exactly the pairs put in |
| TableBuilders.TableBuilder.Add | leveldb/table/table_builder.cc:92-121 | a data block ends with the pair that brings it to the block size, and not before |
| TableBuilders.BuildAndGet | leveldb/table/table_builder.cc:92-254 | building a table and looking a user key up gives the newest pair put in at or before s |
| CompressedSets.CompressedSet.AddDocs | varint/CompressedSet.cpp:92-131 | the list grows by the docs given, full blocks compressed and their last docs in the base list |
| CompressedSets.CompressedSet.Find | varint/CompressedSet.cpp:339-381 | true exactly if the doc is in the set |
| CompressedSets.CompressedSetIterator.Advance | varint/CompressedSet.cpp:556-650 | the iterator moves to the first doc after its own that is not below the target, or is exhausted |
| CompressedSets.AdvanceIsLeast | varint/CompressedSet.cpp:556-650 | that doc is the least member above the last one returned and not below the target, whatever the blocks are |
| CompressedSets.ReturnedAscends | varint/CompressedSet.cpp:441-473 | over any mix of calls docs come out ascending and none twice |
| CompressedSets.NothingIsSkipped | varint/CompressedSet.cpp:441-473 | by exhaustion every doc was returned or lies below the target of some advance |
| CompressedSets.Iterate | varint/CompressedSet.cpp:441-473 | an iterator driven by any list of calls returns just that sequence |
| CompressedSets.SaveAndLoad | varint/CompressedSet.cpp:32-81 | writing a set and reading it into another consumes all bytes, and gives the same set exactly if the other held nothing the file leaves in place |
| LazyOrs.HeapAdjust | varint/LazyOrSet.cpp:129-164 | with only the root out of order the loop restores the heap and keeps its entries |
| LazyOrs.RootIsLeast | varint/LazyOrSet.cpp:129-164 | the entry at the root is the least of the heap |
| LazyOrs.LazyOrSetIterator.Advance | varint/LazyOrSet.cpp:82-110 | the least doc of the union above the last one returned and not below the target |
| LazyAnds.LazyAndSetIterator.Advance | varint/LazyAndSet.cpp:125-159 | the same for the intersection |
| Engines.Search | src/Engine.hpp:184-272 | the page of the ascending list of documents that have every query word in some field, from the 32-bit product of the two numbers given |
| LruCaches.LRUCache.Put | src/LRUCache.hpp:64-106 | the linked entries and the map become those of the list model: the key first, the least recently used one out and written back if dirty |
| LruCaches.PutKeepsOthers | src/LRUCache.hpp:64-106 | no key's current value is lost by a put, not even that of the entry pushed out |
| LruCaches.WriteBackKeepsCurrent | src/LRUCache.hpp:126-135 | after all dirty entries are written back the store alone has every current value |
| LruRecency.Run | src/LRUCache.hpp:64-122 | over every list of gets and puts on an empty cache: cached are exactly the keys since whose last use fewer than size others were used, in order of use; each get returns the last value put if its key is among them; every dirty value pushed out is in the store, and nothing that was not put dirty |
| IndexBatches.BatchConsumer.FlushInBackground | src/InvertedIndexBatch.hpp:226-251 | each word's list in the cache grows by the documents of the batch, in order |
| IndexBatches.StableSortKeepsOrder | src/InvertedIndexBatch.hpp:226-251 | sorting groups the batch by word and keeps each word's documents in order |
| IndexBatches.NothingIsLost | src/InvertedIndexBatch.hpp:226-384 | over every interleaving: what was stored for a word and then, read from the steps, each document added for it, a whole document once for each time the word is among its words, are in order what its list and the two buffers hold |
| IndexBatches.DrainedStoreHasAll | src/InvertedIndexBatch.hpp:226-384 | with the buffers drained and the cache written back the store alone has each of those documents |
| CedarSlots.Slots.Take | src/cedarpp.h:646-665 | an empty slot leaves its ring, the others staying in order, and is used; its block goes to the closed or the full list as its count says, block 0 never |
| CedarSlots.Slots.PushEnode | src/cedarpp.h:667-684 | a used slot comes back behind its ring's head and its block goes to the closed or the open list |
| CedarSlots.Slots.AddBlock | src/cedarpp.h:620-639 | the array grows by a ring of 256 empty slots whose block heads the open list |
| CedarSlots.Slots.TransferBlock | src/cedarpp.h:599-644 | the block leaves its circular list and heads the other one; the order of all others stays |
| CedarSlots.Slots.NumCounts | src/cedarpp.h:62-69 | a block's num is the number of its slots with a negative check |
| CedarSlots.Slots.Partition | src/cedarpp.h:599-644 | every block is in exactly one list, the one its num and trial call for, and block 0 is always in the first |
| CedarSlots.Taken | src/cedarpp.h:646-665 | unlinking a slot leaves each block's ring exactly its empty slots |
| CedarSlots.GivenMore | src/cedarpp.h:667-684 | so does linking one in behind the head |
| CedarSlots.Slots.FindPlaces | src/cedarpp.h:720-739 | the walk through the open blocks and their rings finds the first slot from which all labels have empty places; a block is added exactly if no open one has such a slot; none of the places is in block 0 |
| CedarSlots.Slots.FindPlace | src/cedarpp.h:715-719 | the head of the first closed block, or else of the first open one, or else of a new one; never a slot of block 0 |
| Rings.RingUnlinked | src/cedarpp.h:599-608 | taking a member out of a circular doubly linked list leaves the ring of the others |
| Rings.RingPushed | src/cedarpp.h:609-619 | a new member before the first becomes the first of the ring |
| CedarChains.PushKeepsChains | src/cedarpp.h:686-692 | after a label is pushed the child and sibling chains spell every node's children, the new one behind the terminal or in front |
| CedarChains.MoveKeepsChains | src/cedarpp.h:760-789 | a relocated child keeps its own chain and is chained to the next label |
| CedarTries.Cedar.Consult | src/cedarpp.h:699-703 | walking both chains tells whether the second node has more children |
| CedarTries.Cedar.SetChild | src/cedarpp.h:705-713 | walking one chain yields the labels in order, with a new one behind the terminal |
| CedarTries.Cedar.Resolve | src/cedarpp.h:741-791 | whichever node is relocated, every stored path and value stays and the new child has the slot returned |
| CedarTries.Cedar.Follow | src/cedarpp.h:526-535 | the child is returned, created if need be, and nothing else of the contents changes |
| CedarTries.Cedar.Update | src/cedarpp.h:172-185 | the key has the old value, or 0, plus the one given; other keys keep theirs |
| CedarTries.Cedar.Find | src/cedarpp.h:537-552 | the value, a prefix without value, or no path, as the contents say |
| Cedars.MoveOne | src/cedarpp.h:760-789 | moving one child with its children keeps the double array's invariant in the middle of a relocation |
| Cedars.StoredLookup | src/cedarpp.h:172-185 | an update adds to its own key's value only |
| Cedars.EveryKeyIsFound | src/cedarpp.h:172-185 | after any list of updates every key has the sum of what was added for it; any other has no value, and a path exactly if an inserted key goes on from it |
| CedarTries.Run | src/cedarpp.h:172-185 | a trie updated by that list and then searched answers so, through all relocations and new blocks |
| Huffmans.MergingIsLeast | src/trie/huffman.hpp:91-114 | no depths that fill a binary tree cost less than merging the two smallest weights until one is left |
| Huffmans.Generate | src/trie/huffman.hpp:91-114 | the tree built is over all symbols and no tree over them has a smaller weighted path length |
| BitVectors.CopySet | src/trie/bit_access.hpp:88-144 | exactly the bits asked for are or-ed in, between words of any two widths |
| BitVectors.BitVector.Append | src/trie/bit_vector.hpp:86-102 | the bits given follow the bits there were |
| BitVectors.BitVector.GetBits | src/trie/bit_vector.hpp:122-131 | the bits asked for are the low bits of the word returned, the others are 0 |
| HuffmanCodes.GenerateCodes | src/trie/huffman.hpp:155-174 | the table has each symbol's path in the tree as its code |
| HuffmanCodes.WalkFollows | src/trie/huffman.hpp:281-298 | no code is the start of another: following one ends at its symbol whatever comes behind |
| HuffmanCodes.TextThereAndBack | src/trie/huffman.hpp:269-298 | a text over two or more symbols, encoded into a bit vector, is decoded as it was |

## Findings

Properties that the code does not have in general. Each is proved to fail, with the condition
under which it holds.

| member | source | what fails, and exactly when it holds |
|---|---|---|
| SplitKeys.MoveIsSafeIffBoundaryDiffers | leveldb/db/db_impl.cc:655-700 | output files are cut by size, so versions of one user key may lie in adjacent files of a level. Moving one file down changes no read if and only if it is the last of its level or the next file begins with another user key; `SplitKeys.SplitKeyGoesStale` has the version where a read then returns the older value, and `SplitKeyRuns.SplitKeyIsReached` the run of the store that leads to it |
| GroupCommits.SwitchedUnlessSweptUp | leveldb/db/db_impl.cc:1162-1268 | a request for a memtable switch (a null batch) that a group of an earlier writer reaches is answered Ok without a switch. Over every run it got its switch if and only if no earlier group reached it; `GroupCommits.LoneRequestLeads` gives a caller's condition, `GroupCommits.GroupedSwitchIsLost` the input |
| Replays.ReplayIsExactIff | leveldb/db/version_set.cc:671-763 | one builder for all edits need not give what installing them one at a time gives. It does, for any base and edits, if and only if under every level, smallest key and number the number is out in the end, or the files named since it was last taken out are the base's and the first one ever added; `Replays.ReaddedNumberDiffers` has the input, a number added, deleted and added again, where they differ exactly if the two files do. `Manifests.RunsAddOnce` shows that no run logs such edits |
| EditCodecs.RoundTripNeedsNoPointers | leveldb/db/version_edit.cc:26-39 | `Clear` keeps the compaction pointers: an edit decodes to itself if and only if the object read into has none |
| CompressedSets.ReadRestores | varint/CompressedSet.cpp:54-81 | reading leaves parts of the set in place when the list read is short: it gives the set written if and only if the list is longer than a block, or the set held no compressed block and, for an empty list, no open one either |
| HuffmanCodes.RoundTripNeedsTwoSymbols | src/trie/huffman.hpp:269-298 | the code of an only symbol is empty: all texts are decoded as encoded if and only if there are two symbols or more |
| Engines.PageIsPromised | src/Engine.hpp:184-272 | the page is the one asked for if and only if the product of page and size is below 2^32 or the list ends before the wrapped position |
| BitVectors.PartialAppendPads | src/trie/bit_vector.hpp:67-84 | appending part of another bit vector grows the size by all of it: `BitVector.AppendVector` gives the intended bits if and only if the part is the whole |

## Left out

- Database.DBImpl.BackgroundCompaction: closure of the inputs above level 0 is asked of the caller, because nothing in the picking keeps versions of a user key together; see SplitKeys.
- Compactions.PickCompaction: the level is given; scores, sizes that trigger a compaction and seek statistics are not modelled.
- Logs.Reader.ReadRecord: the file is read from its start (initial_offset 0), and reads do not fail.
- LogRoundTrips.RoundTripUnderTruncation: the checksum is any function of the bytes.
- Blocks.BlockIter.Seek: the sum of two lengths in an entry is taken without 32-bit wrap-around; status and cleanup functions are left out.
- Huffmans.Generate: frequencies are whole numbers that do not overflow.
- HuffmanCodes.TextThereAndBack: the reverse table that the constructor also fills, with 1 << max_length entries that decoding never reads, is not modelled; it fails at code lengths of about 32, before the 256 the model asks for.
- CompressedSets.CompressedSetIterator.Advance: the block codec is an abstract pair of inverse functions; its PREFIX_SUM variant, removal, nextDoc behind the end and lists of 2^31 docs or more are left out.
- VersionEdits.Builder.Apply: compaction pointers and the number of allowed seeks are not part of the builder.
- ManifestCodecs.Recover: the CURRENT file is left out, and so is MarkFileNumberUsed, whose effect a successful recovery overwrites.
- ManifestFiles.RecoverFile: when the log reader reports corruption only the failure is stated, not which of several errors comes first.
- ManifestFiles.WriteManifest: the log numbers of a run are given, and the snapshot has no compaction pointers.
- Tables.Get: the footer, the metaindex block and Open are left out, so the reader is given the index and filter contents; so are the block cache, Snappy and the iterators' statuses.
- Filters.CreateFilter: the hash function and the number of probes are parameters; keys are a list, not one flattened string.
- TableBuilders.BuildTable: file writes do not fail and the table cache is left out.
- CedarTries.Cedar.Update: the tail that stores suffixes outside the array is left out, as are erase, saving, opening, traversal, tracking nodes and overflow of values; the search results are a datatype instead of sentinel values.
- CedarTries.Cedar.SetChild: children are listed unsorted, as for CedarChains.PushKeepsChains.
- CedarTries.Cedar.Find: the search in the tail is left out with the tail.
- Cedars.StoredLookup: speaks of the map of contents; CedarTries.Cedar.Update ties it to the trie.
- Cedars.EveryKeyIsFound: speaks of the map of contents; CedarTries.Run ties it to the trie.
- CedarChains.PushKeepsChains: children are kept unsorted (ORDERED is false), as src/WordIndexKVStore.hpp uses the trie; the sorted variant is left out. MAX_TRIAL is any positive number.
- CedarSlots.Slots.AddBlock: the array grows by one block at a time; capacity doubling is left out.
- IndexBatches.NothingIsLost: waiting, time-outs and shutdown are left out; one step of the machine is one critical section.
- LruCaches.LRUCache.Put: lists are values, so the aliasing of a cached list by a reader is not captured.
- GroupCommits.ReadersSeeWholeWrites: log writes and syncs are one outcome per group; waits and the delays of MakeRoomForWrite are left out.
- SkipListRuns.ReadsAreLinearizable: memory is sequentially consistent; the height of a node is a parameter instead of a random number.
- Engines.Search: the tokenizer and the word index are parameters.
- BitVectors.BitVector.Append: memory management and compact are left out.
- The write-ahead log inside DBImpl::Write: the object's Write is the memtable half; the log is modelled on its own.
- Concurrent version changes: a compaction is installed on the version it was picked from, with no flush in between.
- Reference counts, obsolete files, background errors, shutdown and all file I/O of the store.
- LazyOrSet and LazyAndSet: size and find, which walk the iterator.
- The key-value stores of src/ other than the store below them, the HTTP server, the tokenizer, and the trie and the exponential-Golomb code of src/trie.
