# Verified model of an LSM key-value engine

A Dafny model of the engine's core: sorted tables in layers, compaction, range deletes, the write-ahead
log, the memtable's rotation and flushing, the ordered structures behind memtables, the merging and
filtering iterators, and the data-block format with its index and its Merkle tree. `dafny verify
dfyconfig.toml` checks all of it.

The main results:

- **Compaction.** After every run of flushes and compactions, size-tiered or leveled, a lookup gives the
  answer that the writes call for: the newest record of the key, unless it is a delete or a newer range
  tombstone spans it. Two exceptions are proved to be the only ones: a flush with range deletes and no entries
  writes no table (`History`, `SizeTiered`); and a leveled merge of the last layer can drop a tombstone that
  still hides a record above (`LeveledRuns`; `LeveledLoss` is a run in which that happens). Dropping is safe
  otherwise because of an order of sequence numbers that every step keeps (`SizeTiered`, `Leveled`,
  `SSTableManager`, `Tables`, `MergeLoop`). With records that expire, `Expiry` says exactly when a merge keeps
  what readers are shown.
- **Range tombstones.** Fragmentation, binary search and the two-heap forward checker are equal to the
  one-line specification; where the checker is not, the exact condition is proved
  (`RangeTombstones`, `RangeDelChecker`).
- **Scans.** The merging iterator over tables shows exactly the visible records. A seek or a restart loses
  the tables that are exhausted; the exact condition under which that is seen is proved, and a run in which
  a deleted key comes back (`MergeSeek`, `TableIterator`, `TableScan`, `DBIterator`).
- **Write-ahead log.** From writes and batches to bytes in the blocks of segments and back, exactly what
  recovery gives back: everything that was synced without error if and only if no record without payload has
  just the room for its header, and none is begun at the end of a segment that it does not fit. Behind one of
  the latter kind nothing at all is recovered (`WalLog`, `WalDurability`, on `WalRecord`, `WalBlocks`,
  `WalSegment`). A fragment whose checksum fails is never read, nor is what follows it in its block. Cutting the
  log anywhere keeps batches atomic (`WalRecovery`); truncation after a memtable flush recovers exactly what was
  not flushed, if and only if it splits no batch (`WalTruncation`, `WalFlush`).
- **Memtable protocol.** Every interleaving of writers, flush worker, resets and close conserves the
  writes and flushes no table twice. It crashes exactly when the worker takes a table while no table is
  immutable, which needs a reset with a table on its way; otherwise it never gets stuck, and a close
  returns; a writer that a close overtakes between its rotation and its send panics (`MemtableProtocol`).
- **Ordered structures.** Red-black, B- and AVL trees keep their shape and change by exactly one entry,
  the red-black tree with every child, parent and sentinel link. Their iterators list them in order from the
  start; after a seek the red-black tree's does, the AVL tree's and the B-tree's do under exact conditions. Heap
  and winner tree merge to the same sorted stream (`RbTree`, `RbLinks`, `RbPointers`, `RbSearch`, `BTree`,
  `BTreeIterator`, `BTreeFailure`, `AvlTree`, `OrderedEntries`, `MinHeap`, `WinnerTree`, `KWayMerge`,
  `MergeStructures`).
- **Tables on disk.** Data blocks decode to their records from every restart point; summary, index and
  restart search stop where a linear scan stops; Merkle proofs verify, and the report of corrupted
  blocks is exact if and only if their number is a power of two (`Encoders`, `IndexWidth`, `BlockRecords`, `BitSets`,
  `DataBlock`, `BlockLayout`, `BlockReadBack`, `TableSearch`, `Merkle`).

How things are modelled:

- A key is a `real`, the rank of its byte string; `Keys` proves that ranks compare as the strings do.
  The byte formats work on byte sequences.
- Objects that the engine updates in place (manager, checker, iterators, heap, tournament, red-black tree,
  blocks, segment, log, encoders, builder, reader, memtable manager) are classes with the same fields; loops
  are loops, proved against functions and predicates on values.
- The red-black tree is a map from node identifiers to nodes with left, right and parent fields, the
  sentinel among them; methods write those fields in the order the original does. What they mean is a tree
  and, for a node at work, the path of its ancestors (`RbTree`), tied to the fields by `RbLinks.Focused`.
- CRC-32 and SHA-256 are parameters. Of the checksum only `crc(43 zero bytes) != 0` is assumed, and only
  where zero padding must not look like a record; of the pair hash only injectivity, where stated.
- Time is a parameter. One compaction reads the clock once; in a run no record expires before the last
  compaction (`GoodRun`), which is what `Expiry` shows to be needed.

Where code and comments or expectations part, the code is followed, and a lemma says exactly when it
does what is expected:

- `RangeDelChecker.ExactIffGapsCovered`: gaps between fragments of any number of tables;
- `TableScan.SeekExactIff`: what a seek loses with exhausted tables, and `TableScan.DeletedKeyReturns`;
- `History.ShowsWritesExactly`: flushes with range deletes and no entries, and `SizeTiered.LostRangeDelete`;
- `Tables.DroppingExactly`: tombstones that a merge of the last layer drops, `LeveledRuns.Run` on what that does to a
  run, and `LeveledLoss.RangeDeleteLost`;
- `MemtableProtocol.ResetArmsCrash`: the worker's failure after a reset, and `MemtableProtocol.ResetCrashes`;
- `MemtableProtocol.SendPanics`: a writer that sends after a close, and `MemtableProtocol.CloseMeetsSender`;
- `WalDurability.EverythingRecovered`: records that are synced and not recovered, `WalDurability.SyncedWriteLost` and
  `WalDurability.CommittedBatchLost`;
- `AvlTree.Iterator.Seek`: entries that come up twice, and `BTreeIterator.Iterator.Seek`: entries that are missed;
- `BTree.BTreeMap.Delete`: the delete that fails below a root without entries, `BTree.AbsentLeavesKeyless` on
  how that root comes about, and `BTreeFailure.PresentEntryFails`;
- `Encoders.DecodeLater`: values encoded before the index size of the dictionary changed;
- `Merkle.ExactIffPowerOfTwo`: halving of index ranges;
- `WalFlush.FlushExact`: a flush inside a batch;
- `MemtableProtocol.OutOfOrder`: flush order with two writers;
- `Expiry.MergeShowsSameExactly`: an expired record dropped;
- `WalBlocks.ReadBlock`: an empty record in a tail of exactly `KEY_START` bytes.

## Model

| member | source | states |
|---|---|---|
| Keys.RankEmbedding | internal/sstable/data.go:729-740 | Keys are modelled as the ranks of byte strings: comparing two ranks gives the sign, and the equality, that comparing the byte strings gives, so statements about all keys carry over to byte strings. |
| RangeTombstones.FragmentRangeTombstones | internal/utils/fragmenter.go:17-56 | For every list of tombstones, overlapping, inverted or duplicated: the fragments are sorted and disjoint, cover at every key exactly the sequence numbers the list covers, and each lies in a tombstone of the list with its sequence number. |
| RangeTombstones.IsCoveredByRangeTombstone | internal/utils/range_del.go:11-31 | The binary search over fragments says covered if and only if some fragment has start <= key < end and a larger sequence number. |
| RangeTombstones.ConcatCoverage | internal/sstable/range_del_iterator.go:279-287 | Joining the fragment lists of several tables covers what the joined original lists cover. |
| RangeTombstones.MergeAndFragment | internal/sstable/range_del_iterator.go:279-287 | Fragmenting a union of already fragmented lists gives sorted disjoint fragments with the coverage of all original tombstones. |
| Tables.MergePreservesView | internal/sstable/manager.go:358-506 | Replacing any subset of the tables by their merge, tombstones kept, leaves what is visible of every key unchanged. |
| Tables.DroppingPreservesView | internal/sstable/manager.go:394-406 | Dropping tombstones while merging is safe when every record outside the inputs is newer than the inputs' records of its key and not hidden by their tombstones. |
| Tables.DroppingExactly | internal/sstable/manager.go:394-406 | When every record outside the inputs is newer than the inputs' records of its key, dropping tombstones changes the view if and only if some newest record outside was hidden by the inputs' tombstones alone. |
| MergeLoop.WriteMerged | internal/sstable/manager.go:382-476 | From a sorted stream the loop writes, in strictly increasing key order, exactly the first record of each key that is a delete to be kept, or a value that no fragment covers and whose deadline, if it has one, has not passed. |
| MergeLoop.LoopIsMerge | internal/sstable/manager.go:382-476 | What the loop writes is exactly the newest record of each key across the inputs, less dropped deletes, covered and expired records. |
| Expiry.MergeShowsSameExactly | internal/sstable/manager.go:455-467 | With time to live, a merge that keeps tombstones changes nothing for a reader at any later time if and only if no table outside the inputs holds, as its newest, an older version that is live for that reader of a key whose newest input record had expired at the merge. |
| Expiry.OldestShowsSame | internal/sstable/manager.go:394-467 | Merging the oldest tables changes nothing that a reader at any later time is shown, whatever has expired. |
| Expiry.ExpiryExposes | internal/sstable/manager.go:455-467 | A concrete store in which merging one table after its record expired brings an overwritten value back. |
| SSTableManager.TableGet | internal/sstable/reader.go:355-418 | One table's lookup returns its record of the key unless the table's own tombstones cover it, and nothing otherwise. |
| SSTableManager.BestDecides | internal/sstable/manager.go:243-273 | The newest record that any table returned decides the key, although tables hide records their own tombstones cover: it is a delete or covered, or else it is the visible record; with none, nothing is visible. |
| SSTableManager.MergeTables | internal/sstable/manager.go:358-489 | The merged table holds exactly what a merge keeps, with fragments covering what the inputs' tombstones cover, or none when they are dropped. |
| SSTableManager.Manager.Get | internal/sstable/manager.go:243-280 | The lookup finds the visible record of the key unless its deadline has passed, never one whose deadline has, and nothing only if every visible record of the key has a deadline that has passed. |
| SSTableManager.Manager.GetFragments | internal/sstable/manager.go:553-568 | The cached or recomputed fragments hide exactly what the tombstones of all current tables hide. |
| SSTableManager.Manager.FlushToSSTable | internal/sstable/manager.go:180-241 | A flush adds one table under the next identifier at the end of layer zero with exactly the given entries, sorted, and tombstones, and the cached fragments become stale; without point entries it changes nothing. |
| SSTables.AppendsLast | internal/sstable/manager.go:157-174 | Missing layers are created empty, the table comes last in its layer, and nothing else changes. |
| SSTableManager.Manager.MergeSSTables | internal/sstable/manager.go:358-506 | When something survives, the layers gain the merged table at the end of the target layer and lose exactly the inputs; otherwise they are unchanged. Without an error a merge of tables that keeps tombstones does merge while nothing has expired, and only tombstones that outlive all records make an error. |
| SSTableManager.Manager.DeleteSSTables | internal/sstable/manager.go:287-315 | Exactly the listed tables are gone, from whatever layers, and nothing moves. |
| SSTableManager.Manager.MoveSSTable | internal/sstable/manager.go:509-533 | The table is at the end of the target layer and nowhere else, and the view of every key is unchanged. |
| SizeTiered.LastLayerOldest | internal/lsm/strategy.go:156-182 | When sequence numbers grow from deep layers to shallow ones, tombstones included, the last layer meets the condition for dropping tombstones. |
| SizeTiered.MergeKeepsInv | internal/lsm/strategy.go:156-182 | Merging a layer into the next, or the last one in place, keeps the order of sequence numbers across and along layers, and the view. |
| SizeTiered.Compact | internal/lsm/strategy.go:156-182 | One size-tiered compaction: exactly the layers that have reached the threshold on the way down each become one table of the next layer, the last one of itself. Without an error every layer above the last ends below the threshold; layers that were all below it stay as they are. Order and the view of every key stay, also when an error stops it early. |
| SizeTiered.CascadeSettles | internal/lsm/strategy.go:156-182 | Layers that follow from each other in that way end below the threshold. |
| SizeTiered.QuietCascade | internal/lsm/strategy.go:156-182 | Layers below the threshold stay as they are. |
| SizeTiered.Run | internal/lsm/strategy.go:156-182 | After every run of flushes (range deletes included) and size-tiered compactions, with the layers on the way those of the operations, every sequence number of a layer exceeds those of deeper layers, and the store shows what the flushed tables show; that is what all writes call for if and only if no range delete of a flush without entries covers a record that the flushed tables make visible. |
| SizeTiered.GetAfterRun | internal/sstable/manager.go:180-273 | A lookup after any such run answers what the writes call for if and only if no live record of the key that the flushed tables make visible is covered by a range delete of a flush without entries. |
| SizeTiered.LostRangeDelete | internal/sstable/manager.go:180-186 | A concrete run: a record is flushed, then a range delete over it with no entries beside it, and the lookup still finds the record. |
| History.ShowsWritesExactly | internal/sstable/manager.go:180-241 | Tables that show what a history flushed show the view of all its writes if and only if no range delete that came without entries covers a record that the flushed tables make visible. |
| History.AnswersWritesExactly | internal/sstable/manager.go:180-273 | An answer that the flushed tables call for is one that the writes call for if and only if no such range delete covers a live record of the key that the flushed tables make visible. |
| Leveled.L0Range | internal/lsm/strategy.go:93-106 | The smallest key range that holds all tables of the layer. |
| Leveled.OverlappingInLayer | internal/lsm/strategy.go:108-122 | Exactly the tables whose key range meets the given one, in the order of the layer. |
| Leveled.MergeStepInv | internal/lsm/strategy.go:49-87 | Merging tables with everything they overlap one layer down keeps key ranges disjoint, versions older going down, and the view. |
| Leveled.MoveStepInv | internal/lsm/strategy.go:76-79 | Moving a table that overlaps nothing in the next layer keeps the same. |
| Leveled.Compact | internal/lsm/strategy.go:22-91 | One leveled compaction, range deletes included and whichever layers count as oversized: exactly which layers result, round by round; disjoint ranges and version order stay, and so does the view of every key, except that a merge of the last layer changes it if and only if it uncovers a record; when no layer calls for a round, nothing changes and it succeeds. |
| Leveled.DropSeenExactly | internal/lsm/strategy.go:58-64 | A merge of the last layer that drops tombstones makes exactly the records visible that were visible before and those it uncovers. |
| LeveledRuns.Run | internal/lsm/strategy.go:22-122 | After every run of flushes, range deletes included, and leveled compactions: the layers and tables on the way are those of the operations, each layer below the first has pairwise disjoint ranges and each key's versions get strictly older going down. The store shows all that the flushed tables make visible, and besides exactly the range-deleted records that some merge of the last layer uncovered and no later flush replaced or covered again; without range deletes it shows what all writes call for. |
| LeveledRuns.TraceShows | internal/lsm/strategy.go:22-122 | The same of every sequence of table sets in which each follows from the one before by a flush or a compaction. |
| LeveledRuns.GetAfterRun | internal/sstable/manager.go:243-273 | A lookup after any such run answers what the writes call for if and only if no live record of the key has come back in that way and none that the flushed tables make visible is covered by a range delete of a flush without entries; for a key that no range delete spans always. |
| LeveledLoss.RangeDeleteLost | internal/lsm/strategy.go:22-122 | A concrete run of twenty operations on an empty store: a flushed record is range-deleted by a later flush, the tombstone sinks past it with a table whose keys lie apart, a merge of the last layer drops it, and the record is visible again. |
| RangeDelChecker.NeverMisses | internal/sstable/range_del_iterator.go:212-275 | For every non-decreasing key sequence, from the start or after a seek, a record covered by a fragment of any table is never let through. |
| RangeDelChecker.ExactWhenGapsCovered | internal/sstable/range_del_iterator.go:212-275 | When every gap between a table's fragments is covered by some table, the answer is exact for every non-decreasing key sequence, from the start or from a seek on. |
| RangeDelChecker.GapDeletesUncovered | internal/sstable/range_del_iterator.go:249-255 | In an uncovered gap the answer is wrong: a record that no table hides is reported deleted. |
| RangeDelChecker.ExactIffGapsCovered | internal/sstable/range_del_iterator.go:212-275 | For any number of tables the checker is exact on all key sequences, after any seek, if and only if every key in a gap of a table is hidden by some table from all that the fragment behind the gap would hide. |
| RangeDelChecker.ExactIffContiguous | internal/sstable/range_del_iterator.go:249-271 | For one table that means that its fragments have no gaps. |
| RangeDelChecker.ForwardRangeDelChecker.Seek | internal/sstable/range_del_iterator.go:56-68 | Every iterator goes to its first fragment that ends behind the key, found by binary search, and into the heap where that belongs. |
| RangeDelChecker.ForwardRangeDelChecker.ShouldDelete | internal/sstable/range_del_iterator.go:230-275 | The two heaps and the ordered set move every iterator as the one-iterator automaton does, each iterator is in at most one heap, and the answer is decided by the newest active fragment. |
| RangeDelChecker.ForwardRangeDelChecker.PushActive | internal/sstable/range_del_iterator.go:136-143 | Inserting keeps the set in descending order of sequence number with exactly the active iterators. |
| RangeDelChecker.CheckKeys | internal/sstable/range_del_iterator.go:188-275 | Over a whole scan every answer is right in the sense of the two statements above. |
| TableIterator.TableMergeIterator.Next | internal/sstable/iterator.go:530-577 | What has been given out grows by the current record, and everything skipped was superseded, deleted, or reported deleted by the checker. |
| TableIterator.TableMergeIterator.Seek | internal/sstable/iterator.go:524-528 | After a seek from anywhere the iterator reads the merge of the inputs that still had a record, each from the target on, and stands on the first record to show. |
| TableScan.ScanTables | internal/sstable/iterator.go:472-577 | A scan of any tables yields strictly increasing keys and only visible records, and exactly the visible records when every gap between fragments is covered. |
| TableScan.SeekExactIff | internal/sstable/iterator.go:408-430 | A seek, or a restart, loses the tables that are exhausted; what is shown then is what is visible from the target on if and only if no record of a lost table decides its key, be it the one to show or the delete that hides an older one. |
| TableScan.ScanFrom | internal/sstable/iterator.go:508-528 | After a seek from wherever the iterator had been read to, the scan shows exactly the newest of what the tables that were not exhausted hold, under the tombstones of all tables; and that is right under exactly that condition. |
| TableScan.DeletedKeyReturns | internal/sstable/iterator.go:480-512 | A newer table with nothing but the delete of a key, an older one with its value and a record behind: opened and sent to the first record, as every scan does, the iterator shows the deleted record. |
| MergeSeek.HeapSeekExact | internal/structures/min_heap.go:105-122 | On a heap a seek emits everything from the target on if and only if no exhausted input has any of it. |
| MergeSeek.RawMergeIterator.MoveAll | internal/sstable/iterator.go:408-430 | Moving one input after the other and updating the heap each time leaves a heap in order, although in between it is not: an exhausted input is replaced by the last one, which only sinks. |
| MergeSeek.MergedStep | internal/sstable/iterator.go:432-444 | Whichever least record is emitted first, the stream is the same when a version is one record. |
| MergeSeek.SeekTree | internal/structures/winner_tree.go:84-95 | The winner tree brings back every input, in whatever order its map lists them. |
| KWayMerge.MergedRecords | internal/sstable/iterator.go:384-459 | The merged output holds exactly the records of the inputs. |
| KWayMerge.SortedUnique | internal/sstable/data.go:729-740 | A sorted list in which key and sequence number name one record is determined by its contents. |
| KWayMerge.MergesAgree | internal/structures/merge_structure.go:16-25 | Any two merges of the same inputs emit the same stream when key and sequence number name one record. |
| MinHeap.HeapPriorityQueue.Downheap | internal/structures/min_heap.go:53-75 | Sifting down restores the heap order below an item and only permutes the items. |
| MinHeap.HeapPriorityQueue.Update | internal/structures/min_heap.go:105-122 | After one input was moved anywhere the heap is in order again, during a seek up to what lies below its key, and holds exactly the inputs that are not exhausted. |
| MinHeap.HeapPriorityQueue.constructor | internal/structures/min_heap.go:77-96 | Bottom-up construction makes a heap of exactly the inputs that have a record. |
| MinHeap.HeapPriorityQueue.Winner | internal/structures/min_heap.go:98-103 | The winner's record comes before the current record of every other input; none only if all are exhausted. |
| MinHeap.HeapPriorityQueue.Advance | internal/structures/min_heap.go:124-140 | Advancing the winner moves exactly that input on and leaves a heap of the inputs not exhausted. |
| MinHeap.MergeWithHeap | internal/structures/min_heap.go:53-140 | Draining the heap emits a sorted permutation of all records, for any number of sorted inputs. |
| WinnerTree.Compare | internal/iterator/iterator.go:16-27 | The winner rule prefers a live input to a missing or exhausted one and otherwise the one whose record comes first. |
| WinnerTree.Tree.constructor | internal/structures/winner_tree.go:21-77 | The tournament is built with every match decided, and each leaf's path holds exactly the matches above it. |
| WinnerTree.Tree.Advance | internal/structures/winner_tree.go:84-109 | Replaying the matches on one path decides all matches again after one input moved on. |
| WinnerTree.RootBeats | internal/structures/winner_tree.go:55-82 | When every match is decided, the root beats every input. |
| WinnerTree.MergeWithWinnerTree | internal/structures/winner_tree.go:21-109 | Draining the winner tree emits a sorted permutation of all records, for any number of sorted inputs. |
| MergeStructures.MergeBothWays | internal/structures/merge_structure.go:16-25 | Heap and winner tree emit the same stream when key and sequence number name one record. |
| DBIterator.YieldSound | internal/iterator/db_iterator.go:102-206 | The merged iterator yields strictly increasing keys, each with value and sequence number of the newest entry across both streams, which is neither a delete nor covered. |
| DBIterator.YieldExact | internal/iterator/db_iterator.go:102-206 | An entry is yielded if and only if it is a put with key, value and sequence number of the newest entry of its key across both streams, and that is neither a delete nor covered. |
| DBIterator.Iterator.Advance | internal/iterator/db_iterator.go:102-159 | The loop of the iterator stops at exactly the next entry of that specification, or at the end. |
| DBIterator.SeekYields | internal/iterator/db_iterator.go:66-74 | If both streams seek to the first key not below the target, the iterator yields what the full scan yields from that key on. |
| DBIterator.RangeScan | internal/iterator/range_iterator.go:11-69 | Seek or restart, read while valid: the output is every entry with lower <= key <= upper, and no other, of what the streams deliver after their seek, in key order; of the full scan if they seek as they should. |
| DBIterator.RangeExact | internal/iterator/range_iterator.go:21-69 | A range scan shows exactly the visible newest entries with lower <= key <= upper. |
| WalRecord.EncodeDecode | internal/wal/record.go:88-152 | Decoding the encoding of any record gives the record back, whatever the checksum function, and consumes exactly its bytes. |
| WalRecord.DecodeChecks | internal/wal/record.go:107-115 | Bytes of a record's length decode if and only if they begin with the checksum of the rest. |
| WalRecord.DecodeEncode | internal/wal/record.go:88-152 | Bytes with known type bytes decode if and only if they are the encoding of a record, and then to that record. |
| WalRecord.Encode | internal/wal/record.go:88-105 | Filling the buffer field by field, checksum last, produces exactly the encoded layout. |
| WalSegment.Block.WriteRecord | internal/wal/block.go:35-46 | An encoded record is appended to the block behind what it holds. |
| WalBlocks.ReadBlock | internal/wal/segment.go:279-304 | Reading a block gives back exactly its fragments but one without payload in a tail of exactly KEY_START bytes, and the scan stops right behind them. |
| WalBlocks.ReadStops | internal/wal/segment.go:365-405 | The reader stops behind the readable fragments, at the padding or at a tail that is too short. |
| WalBlocks.ReadsExactly | internal/wal/segment.go:365-405 | A record is read at an offset if and only if bytes of the size announced there fit the block and begin with the checksum of the rest. |
| WalBlocks.DamagedBlock | internal/wal/segment.go:279-304 | A block whose first fragments are intact and whose next bytes fail the checksum, by a fragment changed on disk for one, reads as exactly those fragments, and the scan stops right behind them. |
| WalSegment.Segment.AppendWALRecord | internal/wal/segment.go:122-212 | An append fails exactly when the record, cut over fresh blocks, needs more blocks than the segment has; otherwise writing goes on right behind it and a reader recovers one record more, or nothing more for an empty record in a tail of KEY_START bytes. After a failure what was recoverable stays so, and exactly when its first fragments fitted an incomplete record lies behind it. |
| WalSegment.Segment.AppendRest | internal/wal/segment.go:180-212 | Middle fragments over fresh blocks and the last one add up to the one record being written. |
| WalSegment.ReadAllRecords | internal/wal/segment.go:218-247 | Reading a segment block by block gives back every readable fragment in order. |
| WalSegment.OpenScan | internal/wal/segment.go:60-108 | Reopening finds the last block in use and the position behind its last readable record. |
| WalSegment.WriteSyncRead | internal/wal/segment.go:21-247 | For every block size above KEY_START and all records: how many are appended before the segment is full, that exactly those not hidden in a tail of KEY_START bytes come back in order after a sync, so all of them if and only if none is hidden, and that reopening finds the block index and write position. |
| WalSegment.FoundAll | internal/wal/segment.go:365-405 | All records are found if and only if no record without payload has just the room for its header. |
| WalLog.Log.AppendWALRecord | internal/wal/wal.go:154-180 | An append to the log fails exactly for a record that an empty segment cannot hold; otherwise writing goes on where the sizes say, in a new segment if need be, and a reader finds one record more unless the record is hidden or an incomplete one lies before it. |
| WalLog.Log.RotateSegment | internal/wal/wal.go:541-556 | A new segment begins, and what a reader of the whole log finds stays the same. |
| WalLog.JoinSegment | internal/wal/wal.go:282-394 | Joining over segments: behind an incomplete record at the end of a segment nothing of the next one is joined; otherwise its records are found too. |
| WalLog.TooLargeAnywhere | internal/wal/segment.go:122-212 | What fits behind other records fits an empty segment. |
| WalLog.Log.BatchWrite | internal/wal/wal.go:182-260 | A batch goes to the log under a number of its own, start record, operations, commit record; it fails exactly when some record of it is too large. |
| WalDurability.RecoveredExactly | internal/wal/wal.go:182-426 | Recovery of a log written by single writes and batches gives back, in order, exactly the found single operations and, of each batch whose start and commit records are found, the found operations. |
| WalDurability.EverythingRecovered | internal/wal/wal.go:154-426 | Everything written without error is recovered if and only if no record is misplaced: none without payload has just the room for its header, and none is begun at the end of a segment that it does not fit. |
| WalDurability.TornEnds | internal/wal/wal.go:154-180 | Behind a record that was begun at the end of a segment and written whole to the next, recovery finds nothing more. |
| WalDurability.WriteAndRecover | internal/wal/wal.go:112-280 | From writes to bytes in blocks of segments and back: which writes are accepted, and exactly what recovery gives back of them. |
| WalDurability.SyncedWriteLost | internal/wal/wal.go:154-180 | Two writes synced without error, the second begun at the end of its segment: recovery gives back the first only. |
| WalDurability.CommittedBatchLost | internal/wal/wal.go:182-260 | A batch written and synced without error whose commit record fills the last 47 bytes of a block: recovery gives back nothing of it. |
| WalRecovery.JoinFragments | internal/wal/wal.go:325-394 | The loop computes the join of the fragments, of which a longer stream only has more at the end. |
| WalRecovery.JoinConcat | internal/wal/wal.go:325-394 | Joining one stretch and then another is joining both. |
| WalRecovery.ApplyTransactions | internal/wal/wal.go:396-426 | The loop with its map of pending transactions computes the specification of what is applied. |
| WalRecovery.RecoverPrefix | internal/wal/wal.go:325-426 | For any prefix of any fragment stream, the recovered operations are a prefix of those of the full stream. |
| WalRecovery.BatchesAreAtomic | internal/wal/wal.go:182-260 | With the log cut anywhere, inside a fragment sequence even, the batches before the cut contribute all their operations and the one being written none. |
| WalRecovery.WholeLogRecovers | internal/wal/wal.go:182-260 | An uncut log recovers every operation of every write and batch, in order. |
| WalRecovery.BatchLayout | internal/wal/wal.go:182-260 | A batch is a start, its operations under one number, and a commit with the last sequence number, field by field. |
| WalTruncation.TruncatedStream | internal/wal/wal.go:428-526 | Marking older segments flushed and skipping blocks before the last hit reads exactly the records above the target. |
| WalTruncation.Search | internal/wal/wal.go:435-480 | The search finds the last segment and block that hold a record up to the target, or none when there is none. |
| WalTruncation.WAL.ReadAllFragments | internal/wal/wal.go:282-323 | Whatever was skipped, filtered and deleted, the log reads as all fragments ever written with a sequence number above what was flushed, in order. |
| WalTruncation.WAL.AppendFragment | internal/wal/wal.go:154-180 | A fragment comes last in the block being written or in the next one, and nothing else changes for a reader. |
| WalTruncation.WAL.RotateSegment | internal/wal/wal.go:541-556 | A new segment with its manifest entry begins, and nothing changes for a reader. |
| WalTruncation.WAL.MemtableFlushed | internal/wal/wal.go:428-526 | After a flush report the log reads as before without the records up to the target, and nothing is written; it is cut at the last readable block with such a record in a segment not flushed as far, everything below going, or, when there is none, an error changes no file and no manifest entry. |
| WalTruncation.WAL.DeleteOldSegments | internal/wal/wal.go:641-678 | Exactly the segments up to the low watermark are gone from files and manifest, never the active one. |
| WalTruncation.WAL.SetFlushedUpTo | internal/wal/manifest.go:133-146 | The flushed mark of one segment moves forward or not at all, no other entry changes, and an unknown segment is an error. |
| WalTruncation.WAL.SetLowWatermark | internal/wal/wal.go:528-539 | The watermark is refused at the active segment and never moves back. |
| WalFlush.FlushExact | internal/wal/wal.go:428-526 | Recovery of the truncated log is the earlier result restricted to sequence numbers above the target if and only if the target splits no batch. |
| WalFlush.FlushAndRecover | internal/wal/wal.go:263-280 | Of the running log: the first recovery gives back all operations above the mark, a flush report moves the mark, and the second gives back the earlier result above the target if and only if the target splits no batch. |
| WalFlush.JoinKept | internal/wal/wal.go:282-394 | Joining and filtering commute, since a record's fragments share its sequence number. |
| MemtableProtocol.RunInv | internal/memtable/manager.go:60-245 | One invariant holds in every state of every interleaving of writers, the flush worker, resets and a close. |
| MemtableProtocol.RunConserves | internal/memtable/manager.go:60-112 | The tables, in the order they were made, hold all writes of the run in order. |
| MemtableProtocol.RunSafe | internal/memtable/manager.go:60-143 | Every older table is in exactly one of four places (immutable, in flight, flushed, discarded), none is flushed twice, each flush got all of its table, and rotation keeps at most maxTables immutables. |
| MemtableProtocol.ResetNeverFlushed | internal/memtable/manager.go:222-228 | A table that is active or immutable at a reset is never flushed. |
| MemtableProtocol.CloseWaits | internal/memtable/manager.go:230-245 | When a close returns, every older table was flushed or discarded by a reset. |
| MemtableProtocol.CloseCompletes | internal/memtable/manager.go:230-245 | Once a close has begun, nobody writes, and every table on its way is still immutable, the steps of worker and closer lead to its return with every older table flushed or discarded. |
| MemtableProtocol.NeverCrashes | internal/memtable/manager.go:115-143 | A run in which no reset finds a table on its way to the worker never crashes, and every table on its way stays immutable. |
| MemtableProtocol.TakeCrashes | internal/memtable/manager.go:115-143 | A step crashes exactly when the worker takes a table while no table is immutable. |
| MemtableProtocol.ResetArmsCrash | internal/memtable/manager.go:133-143 | Right after a reset some run of the worker alone crashes if and only if a rotated table was still on its way to it. |
| MemtableProtocol.ResetCrashes | internal/memtable/manager.go:133-143 | A concrete run: rotate, send, reset, receive, take, and the process has crashed. |
| MemtableProtocol.CloseWithoutWriters | internal/memtable/manager.go:230-245 | With no writer running a close makes no send on the closed channel. |
| MemtableProtocol.SendPanics | internal/memtable/manager.go:97-113 | A step panics exactly when a writer sends after the close of the channel. |
| MemtableProtocol.CloseMeetsSender | internal/memtable/manager.go:230-245 | A concrete run: a close overtakes a writer between rotation and send, which then panics. |
| MemtableProtocol.NoDeadlock | internal/memtable/manager.go:97-132 | In a process that has not crashed or panicked, unless all is quiet some internal step is enabled: no writer sleeps for good. |
| MemtableProtocol.InternalProgress | internal/memtable/manager.go:97-132 | Every internal step decreases a measure, so only finitely many follow each other. |
| MemtableProtocol.Drains | internal/memtable/manager.go:97-132 | Left alone, writers and worker come to rest with every sent table flushed or dropped, or crash; never if every table on its way is still immutable. |
| MemtableProtocol.FlushOrder | internal/memtable/manager.go:97-132 | While no two writers send at the same time, tables are flushed in the order they were made. |
| MemtableProtocol.OutOfOrder | internal/memtable/manager.go:107-112 | Two writers that send at the same time can have their tables flushed in the opposite order: a concrete run. |
| MemtableProtocol.MemtableManager.RotateSection | internal/memtable/manager.go:97-112 | The locked part of a rotation is exactly the protocol's step, whichever way it goes. |
| MemtableProtocol.MemtableManager.TakeSection | internal/memtable/manager.go:115-143 | The locked part of the worker is exactly the protocol's step, the failure on an empty list of immutable tables included. |
| Merkle.Build | internal/sstable/merkle.go:46-95 | Levels are built up to one root, whose hash is the one that positions call for, an odd last node paired with itself; no leaves is an error. |
| Merkle.RootByPosition | internal/sstable/merkle.go:46-95 | The root is the tree described from the top down: each node hashes its two neighbours one level below, the last of an odd level twice. |
| Merkle.RootMatches | internal/sstable/merkle.go:46-95 | With an injective pair hash, two roots over equally many blocks agree if and only if all block hashes do. |
| Merkle.PathLeadsToRoot | internal/sstable/merkle.go:322-386 | For every number of leaves, odd levels included, the proof of any block leads to the root. |
| Merkle.VerifyProof | internal/sstable/merkle.go:390-412 | The loop climbs the proof's steps and compares with the root. |
| Merkle.ClimbInjective | internal/sstable/merkle.go:390-412 | With the same steps a different block hash leads to a different root. |
| Merkle.ValidateBlock | internal/sstable/merkle.go:268-276 | A block passes if and only if it has the hash the tree was built from. |
| Merkle.Verify | internal/sstable/merkle.go:225-266 | Verification is an error for another number of blocks, and otherwise valid if and only if all hashes match. |
| Merkle.ReportedExact | internal/sstable/merkle.go:279-305 | For a power of two of blocks exactly the differing indices are reported. |
| Merkle.ReportedExactly | internal/sstable/merkle.go:279-305 | For any number of blocks exactly those indices are reported to which the paths of differing blocks are halved. |
| Merkle.Misreported | internal/sstable/merkle.go:279-305 | For any other number of blocks a corrupted second block is reported as the first. |
| Merkle.ExactIffPowerOfTwo | internal/sstable/merkle.go:279-305 | The report is exact for all hashes if and only if the number of blocks is a power of two. |
| Encoders.UvarintRoundTrip | internal/sstable/data.go:108-160 | Every value below 2^64 is read back from its variable-length encoding, with its length. |
| Encoders.UvarintExactly | internal/sstable/data.go:370-373 | A number is read with its length exactly from the bytes that end with the first one below 128 and hold it seven bits at a time, up to ten of them within 64 bits. |
| Encoders.KeyRoundTrip | internal/encoders/delta_encoder_bytes.go:27-68 | A delta-encoded key is read back with its previous key, and a whole key with any. |
| Encoders.KeyShares | internal/encoders/delta_encoder_bytes.go:27-43 | What is written of a key is the length of the longest prefix it shares with the previous one, and the rest. |
| Encoders.DeltaEncoder.Encode | internal/encoders/delta_encoder_bytes.go:27-43 | A restart point every interval keys, with its offset noted and the key written whole; otherwise the longest prefix shared with the last key is left out. |
| Encoders.AdaptiveEncoder.AddToDict | internal/encoders/adaptive_encoder.go:65-106 | A value joins the dictionary exactly when it has been seen often enough within the window and is not in it; the counts are those of the values seen since each was first tracked. |
| Encoders.DecodeLater | internal/encoders/adaptive_encoder.go:108-160 | What was encoded decodes to the same value with a later dictionary if and only if it was stored whole or both dictionaries have the same index size. |
| Encoders.DecodeUpTo256 | internal/encoders/adaptive_encoder.go:108-160 | Up to 256 values it always does. |
| Encoders.LostBeyond256 | internal/encoders/adaptive_encoder.go:108-160 | A value that was encoded as an index with at most 256 values is an error once there are more. |
| IndexWidth.IndexLater | internal/encoders/adaptive_encoder.go:116-160 | An index is read back with a larger dictionary if and only if its size in bytes is still the same; otherwise reading it is an error. |
| IndexWidth.OneByte | internal/encoders/adaptive_encoder.go:116-133 | An index takes one byte exactly up to 256 values. |
| IndexWidth.WritesLowBits | internal/encoders/adaptive_encoder.go:116-125 | The mask leaves the low bits of the number, as many as the dictionary needs. |
| IndexWidth.ReadsLowBits | internal/encoders/adaptive_encoder.go:147-156 | Whatever the bytes, the low bits are read, or an error if there are too few. |
| BlockRecords.RecRoundTrip | internal/sstable/data.go:346-436 | A record is read back wherever its bytes lie, with its key and value decoded. |
| BlockRecords.HeadSound | internal/sstable/data.go:368-396 | Whatever the bytes, a head is read only where chunk type, sequence number, deadline and a known operation stand. |
| BlockRecords.RecSize | internal/sstable/data.go:108-135 | A record takes no more room than the size estimate used to accept it. |
| BitSets.BytesRoundTrip | internal/sstable/bitset.go:40-52 | The bits of a set are those read back from its bytes. |
| BitSets.BitSet.Set | internal/sstable/bitset.go:19-29 | Whole bytes are added until the bit is there; it is set and no other bit changes. |
| BlockLayout.Finish | internal/sstable/data.go:215-255 | A block that fits is laid out as data, restart offsets, padding, sizes, bitmap and checksum, and is exactly a block long; another is refused. |
| BlockLayout.ParseRoundTrip | internal/sstable/data.go:293-340 | The reader takes every finished block apart into the data, restart points and bitmap it was made of. |
| BlockLayout.ParseExactly | internal/sstable/data.go:293-341 | Any bytes are taken apart into these parts exactly when they consist of them, checksum included. |
| BlockLayout.ParseChecks | internal/sstable/data.go:303-308 | Only a block that ends with the checksum of all that comes before is taken apart. |
| DataBlock.ReadItem | internal/sstable/data.go:346-436 | Record i is read at its offset, and the reader ends up at the next one with the right previous key. |
| DataBlock.RestartsSnoc | internal/encoders/delta_encoder_bytes.go:27-43 | Adding a record adds a restart point exactly when one is due, at the record's offset. |
| BlockReadBack.DataBlockBuilder.AddRecord | internal/sstable/data.go:108-160 | A record is refused exactly without room; otherwise it is behind the others, with the dictionary position of its value if that is frequent by then, first and last key are kept, and the block can still be finished. |
| BlockReadBack.DataBlockReader.SeekToRestart | internal/sstable/data.go:439-453 | The reader stands at the record of the restart point; an error for a number out of range. |
| BlockReadBack.WriteAndReadBack | internal/sstable/data.go:108-453 | A block built, finished, parsed and read from any restart point with a dictionary that has grown since: records are taken up to the first without room, each with the dictionary of its moment; those from the restart point come back up to the first whose value no longer decodes, so all of them if and only if every indexed value among them still has its index size. |
| DataBlock.SmallDictionary | internal/encoders/adaptive_encoder.go:116-160 | With at most 256 values in the later dictionary every record of the block decodes. |
| TableSearch.FindRestart | internal/sstable/data.go:525-550 | The last restart point whose key is below the target, or the first. |
| TableSearch.SeekInBlock | internal/sstable/data.go:525-563 | Binary search over restart points and a scan stop where a linear scan of the block stops. |
| TableSearch.FindBlock | internal/sstable/index.go:112-139 | The last index entry not above the target, or the first one. |
| TableSearch.SearchesAgree | internal/sstable/summary.go:177-201 | Summary and index together find the data block that one search over all entries would. |
| TableSearch.BuildIndex | internal/sstable/writer.go:228-260 | The index blocks hold one entry per data block in order; each but the last is closed with the entry that brings it to the limit, and the last is below it. |
| TableSearch.WriteAndSeek | internal/sstable/iterator.go:114-160 | For every table layout and target, summary, index, restart and scan stop at the first record with key at or above the target, as a linear scan of the table does. |
| AvlTree.Insert | internal/structures/avl_tree.go:93-117 | Stored heights stay exact, sibling heights within one, and the height grows by at most one. |
| AvlTree.InsertInOrder | internal/structures/avl_tree.go:93-117 | The in-order sequence gains exactly the new entry, in front of everything it does not follow, and stays sorted. |
| AvlTree.Delete | internal/structures/avl_tree.go:151-199 | Stored heights stay exact, sibling heights within one, and the height drops by at most one. |
| AvlTree.DeleteInOrder | internal/structures/avl_tree.go:151-199 | Of different entries exactly the one that compares equal is gone, or none if there was none. |
| AvlTree.LowerBound | internal/structures/avl_tree.go:123-135 | The first entry in order whose key is not below the target. |
| AvlTree.Iterator.Next | internal/structures/avl_tree.go:271-293 | Exactly the current entry has gone by. |
| AvlTree.EntriesInOrder | internal/structures/avl_tree.go:205-293 | The parent-stack iterator lists exactly the in-order sequence. |
| AvlTree.Iterator.Seek | internal/structures/avl_tree.go:319-338 | After a seek the iterator stands on the first entry whose key is not below the target; what follows is the rest of the tree if and only if the node found has no left child, and otherwise that node and its right subtree come up a second time. |
| AvlTree.EntriesFrom | internal/structures/avl_tree.go:271-338 | So a listing from a key on is right if and only if that node has no left child. |
| BTree.SplitGood | internal/structures/b_tree.go:133-161 | The two halves of a full node have t-1 entries each, at the same depth. |
| BTree.InsertInOrder | internal/structures/b_tree.go:109-186 | The in-order sequence gains exactly the new entry, where it belongs. |
| BTree.MergeGood | internal/structures/b_tree.go:305-315 | A merged node has 2t-1 entries and its parent one fewer. |
| BTree.FillGood | internal/structures/b_tree.go:263-275 | After a borrow or a merge the child to descend to has at least t entries and its siblings stay within bounds. |
| BTree.DeleteInOrder | internal/structures/b_tree.go:188-226 | Exactly the entry that compares equal is gone from the in-order sequence, and the result says whether there was one. |
| BTree.BTreeMap.Insert | internal/structures/b_tree.go:175-186 | From every tree of the invariant, equal entries and a root without entries included: t-1 to 2t-1 entries below the root, one leaf depth, and exactly the entry more, where it belongs. |
| BTree.BTreeMap.Delete | internal/structures/b_tree.go:228-240 | It fails exactly when the root is without entries over a child of t-1; a delete that finds its entry leaves a root with entries, one leaf depth and t-1 to 2t-1 entries per node. When no two entries compare equal it finds the entry if and only if it was there, and the contents then lose exactly that entry and otherwise stay. |
| BTree.DeleteRootInOrder | internal/structures/b_tree.go:188-240 | From below a root without entries, too, exactly the entry that compares equal is gone. |
| BTree.InsertKeepsEntries | internal/structures/b_tree.go:175-186 | An insert leaves a root without entries only where it found one. |
| BTreeFailure.PresentEntryFails | internal/structures/b_tree.go:165-315 | A concrete run for t = 2 from the empty tree: eighteen ascending inserts and three deletes of absent entries, none of which fails, and then the delete of an entry that is present does. |
| BTree.TryFillIsFill | internal/structures/b_tree.go:263-275 | Filling a child never fails below a node with entries. |
| BTreeIterator.Iterator.SeekToFirst | internal/structures/b_tree.go:355-369 | Everything is to come, in order; on an empty tree the iterator stands nevertheless, and reading its entry fails. |
| BTreeIterator.Iterator.Next | internal/structures/b_tree.go:412-441 | Exactly the current entry has gone by, whether the way is down a child, along a leaf or up the stack. |
| BTreeIterator.Iterator.Seek | internal/structures/b_tree.go:387-410 | Exactly the entries not before the target are to come if the leaf at the end of the descent holds the first of them; otherwise the iterator is at its end. |
| BTreeIterator.EntriesFrom | internal/structures/b_tree.go:387-441 | So a listing from a target on is right if and only if that leaf holds the first such entry or there is none in the tree. |
| BTree.AbsentLeavesKeyless | internal/structures/b_tree.go:228-240 | Over any number of deletes: one that finds nothing leaves a root without entries exactly when it found one, or found a root of one entry over two children of t-1. |
| BTree.KeylessExactly | internal/structures/b_tree.go:228-240 | From a root with entries, deleting an absent entry leaves a root without entries exactly when the root has one entry over two children of t-1. |
| BTree.LowerBoundScans | internal/structures/b_tree.go:45-75 | Search gives the first in-order entry not before the target. |
| RbPointers.RBTree.LeftRotate | internal/structures/rb_tree.go:46-62 | The pointer writes of a rotation turn the links of any subtree in place into those of the rotated one: children, parents, the root, and no other node. |
| RbPointers.RBTree.RightRotate | internal/structures/rb_tree.go:64-80 | The same the other way round. |
| RbPointers.RBTree.InsertFixup | internal/structures/rb_tree.go:144-183 | From a red node below a red one, following parent fields, recolouring and rotations give a red-black tree with a black root, right links throughout, and the same in-order sequence. |
| RbPointers.RBTree.Insert | internal/structures/rb_tree.go:115-142 | Red-black again with all links right, one node more, and the in-order sequence gains exactly the new entry where it belongs. |
| RbPointers.RBTree.Transplant | internal/structures/rb_tree.go:196-212 | The subtree hangs where the node was, its parent field is set, the sentinel's too, and no other link changes. |
| RbPointers.RBTree.DeleteFixup | internal/structures/rb_tree.go:249-302 | From a subtree one black node short, the sentinel with the parent it was given included, the four cases give a red-black tree with right links and the same in-order sequence. |
| RbPointers.RBTree.Delete | internal/structures/rb_tree.go:214-247 | Deleting any node of the tree leaves a red-black tree with right links and takes exactly that node's entry out of the in-order sequence; no entry moves to another node. |
| RbTree.LeftRotateInOrder | internal/structures/rb_tree.go:46-62 | A rotation changes no in-order sequence. |
| RbLinks.FocusClose | internal/structures/rb_tree.go:20-44 | The links are right of a subtree and its path exactly when they are of its parent and the path above. |
| RbSearch.LowerBound | internal/structures/rb_tree.go:82-99 | The newest version at the first key not below the target. |
| RbSearch.LeftmostStays | internal/structures/rb_tree.go:94-97 | The second loop of the search never moves. |
| RbSearch.Iterator.Next | internal/structures/rb_tree.go:376-393 | Exactly the current entry has gone by, whether the way is down the left links or up the parent fields. |
| RbSearch.Iterator.Climb | internal/structures/rb_tree.go:384-392 | Following parent fields while coming from the right ends at the next node in order, or behind the last one. |
| RbSearch.Iterator.Seek | internal/structures/rb_tree.go:357-374 | After a seek exactly the entries whose keys are not below the target are to come. |
| RbSearch.EntriesInOrder | internal/structures/rb_tree.go:304-313 | The iterator lists exactly the tree's entries, in order. |

## Left out

- Files, directories, JSON manifests on disk, block cache and storage layers: tables, segments and manifests are in memory.
- Probabilistic keys and snapshotted keys in merges: a merge is that of plain keys.
- SizeTiered.Run: assumes that no record has expired by the last compaction and that each flush has sequence numbers above all earlier ones.
- LeveledRuns.Run: assumes the same of expiry and sequence numbers.
- Leveled.Compact: which layers count as oversized is a parameter, so the theorem covers every size limit; sizes themselves are not modelled.
- SSTableManager.TableGet: the Bloom filter before the search and the caches are not modelled; a filter without false negatives changes no answer.
- SSTableManager.Manager.MergeSSTables: the error of a merge that leaves only range tombstones is modelled as leaving the layers alone; other I/O errors are not modelled.
- RangeDelChecker.ForwardRangeDelChecker.ShouldDelete: the two heaps are sets from which a least element is taken, since the order of equal ends or starts cannot be observed; the sifting of the standard library's heap is not modelled.
- TableScan.ScanFrom: one table's own seek is given by its first record at or above the target; `SeekToLast`, and choosing tables by key range, are not modelled.
- MergeSeek.RawMergeIterator.MoveAll: the seek of the tables' iterator, which updates the heap after every move. The memtables' iterator moves all inputs first and updates the heap afterwards; that seek is not modelled.
- DBIterator.RangeScan: the two streams are sequences, and what they deliver after their seek is a parameter; for tables TableScan.ScanFrom says what that is. `Prev` and `SeekToLast` panic in the code.
- WalDurability.WriteAndRecover: the log is new, nothing is flushed from it, and every write is on disk when it returns; what is on disk after a write that was refused, and going on to write behind an incomplete record after a reopening, are not modelled.
- WalTruncation.WAL.AppendFragment: which block a fragment goes to is a parameter, so the theorems hold for every block size; bytes, and where records go, are the matter of WalSegment and WalLog, which do not truncate.
- WalFlush.FlushAndRecover: the log holds whole records and batches, none of them lost in the way of WalDurability.
- WalTruncation.WAL.MemtableFlushed: manifest entries are kept in order of segment identifiers, so sorting them is not modelled.
- WalRecord.EncodeDecode: sizes and numbers are within their 32- and 64-bit fields; the decoder is not followed on byte strings that announce sizes beyond memory.
- Integer wrap-around of sequence numbers and transaction numbers: they are unbounded.
- MemtableProtocol.RunConserves: a table's contents are the list of its writes; lookups in memtables while a flush is under way are not modelled.
- Merkle.RootMatches: hashes are numbers and the pair hash is a function assumed injective.
- Encoders.AdaptiveEncoder.AddToDict: dictionary sizes and frequency counts do not wrap around.
- BlockReadBack.WriteAndReadBack: full records only, without chunks of large values, in blocks below 0x7FFF0 bytes, so that the bitmap's size fits its field.
- TableSearch.WriteAndSeek: keys strictly increase within a table, the first key is not empty (an empty first key is not indexed), and the summary samples every index block.
- TableSearch.BuildIndex: entries are decoded; the bytes of index and summary blocks are not modelled.
- AvlTree.Insert: nodes are values and the functions return the new node, so updating in place and sharing of nodes are not modelled; neither are the backward steps of the iterator.
- BTree.BTreeMap.Insert: nodes are values and the functions return the new node, so updating in place and sharing of nodes are not modelled; the degree is at least two.
- BTree.BTreeMap.Delete: with entries that compare equal in the tree, shape and contents after a delete of an absent entry, and contents after any delete, are not promised; the memtables keep entries apart by key and sequence number.
- BTreeIterator.Iterator.Next: the backward steps of the iterator are not modelled.
- RbSearch.Iterator.Seek: the null node that a seek behind the last entry leaves is the sentinel here; moving on from it fails in the code.
- RbPointers.RBTree.Delete: `SeekToLast` and `Prev` of the iterator are not modelled.
- Skip list and hash-map memtables, the LSM read cache, the expiry janitor, backups, sketches and filters, command line and configuration.
