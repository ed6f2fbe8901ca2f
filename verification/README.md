# XDL storage engine: a verified model

XDL is an embedded row store. Rows are packed into pages, pages live behind an LRU cache
over fixed slots of one file, a sorted vector with a write buffer maps ids to page slots,
secondary indexes file ids under order-preserving keys, and a CRC-framed write-ahead log is
replayed when the database is opened. This project models those parts as they are in the
C++ sources, in place where the C++ works in place, and proves that together they are one
map from id to row, in every run, for every cache capacity, and across crashes.

The main theorems, each over all inputs:

- **Refinement to a map** (`Runs.Run`). Any sequence of inserts, erases, updates, batches,
  gets, filtered scans, range scans, index creations and drops, and checkpoints, with any
  cache capacity, gets exactly the replies a map gives, and ends in that map. The order of
  rows is part of it: scans list them as they were put in, range scans through an index by
  key and, where keys are equal, as they were put in.
- **Rounds of runs and crashes** (`Runs.Rounds`, `Runs.CrashRound`). Any number of runs,
  each ended by a crash between operations or anywhere inside a checkpoint, and a reopen,
  whatever was evicted when: as long as no crash finds an id on file twice, the engine ends
  as the map all the commands build, ready for more. At each crash the reopened engine is
  sound, and a full scan of it lists the map, if and only if the file holds no id twice. A
  cache with room for every page always meets the condition, because `flush_all` writes in
  ascending page order and rows move to the last page only (`Stolen.AscendingUnique`).
- **Any cut of the log** (`Recovery.CrashReopen`, `Stolen.Reopen`, `Stolen.ReopenEarlier`).
  Cut the log at any byte at or past the last sync. Without evictions the state is the
  file's plus a prefix of the logged changes covering every synced one, by the same history,
  so that rows are back at the places their records carry. With evictions, and with any of
  the unsynced page writes lost, every id is as it was at some moment at or after the last
  surviving record, provided that the log restores what the file held; `Replay.CutExactly`
  shows that this condition is the exact one.
- **Bundled LZ4** (`Lz4Codec.Compress`, `Lz4Codec.RoundTrip`, `Lz4Codec.Decompress`). The
  compressor ends, never writes past its buffer, keeps the end-of-block rules, and emits
  the sequences of `Lz4Codec.Plan`, a function of the input. The output decodes to the input
  if and only if no planned copy hides its overlap from the 16-bit test, so always below
  65536 bytes; 65542 equal bytes fail.
- **Log framing and CRC** (`Wal.Log`, `Wal.TornLog`, `Wal.DamageStopsReplay`,
  `Wal.CleanTailOnly`, `Crc.Compute`). Any flush pattern yields header and records, any
  truncation yields the whole records before it, any changed byte outside a length field
  stops replay there, and records logged after a reopen are all replayed if and only if the
  log found had no torn tail.

Four runs of the engine, each proved step by step, show how the conditions above can fail in
the code as it is.

- `Twice.FileCanHoldTwice`: an updated row moves to another page, that page is evicted, and
  the file holds the id twice. After a crash the engine is unsound and a full scan no longer
  lists the acknowledged rows (`Twice.CrashShowsTwice`).
- `Unordered.BatchTorn`: pages are evicted in the order of their use, not of their change, so
  a crash inside `erase_batch` can leave the state after no prefix of the batch.
- `Returns.FirstReturns`: two crashes inside batches bring back the first version of a row
  that had been replaced before the first crash and deleted before the second.
- `Forgets.AcknowledgedLost`: a crash leaves part of a record at the end of the log, open
  appends behind it, and a row inserted and acknowledged after that is gone at the next open.

What the functions in the contracts mean is stated apart from them. Filters are pinned by
IEEE numbers and by range scans, keys by dictionary order, refusals of a batch by their
faults (`Contract`), and the bytes on disk by whole records, headers, rows, slots and blocks
(`Formats`, `Lz4Limits`), among them the check value of CRC-32.

The layers, bottom up: `Bytes`, `Folds`, `Crc`, `Wal`; `Lz4Format`, `Lz4Codec`,
`Lz4Limits`; `Rows`, `Floats`, `Filter`, `Pages`; `Index`, `Keys`, `Tree`, `Secondary`; `Storage`, `Formats`,
`Cache`, `Paging`; `Layouts` (which row is in which slot of which page), `Replay` (logs on
maps), `History` (logs with places), `Contract` (what each operation must answer);
`Engine`, `Recovery`, `Stolen`, `Runs`; `Samples` (single steps on concrete databases),
`Twice`, `Unordered`, `Returns`, `Forgets`. Floats are 32-bit patterns. Files are byte
sequences with a synced length.

A page write larger than its slot runs into the next page's header. The model writes it,
reports `Fault` and stops. `Database.Faultable` says when that can happen: under LZ4 the
block of some page is larger than 8192 bytes, or 32-bit page ids are used up. The block's
size is a function of the page's bytes, `Lz4Codec.PlannedSize`, so this is a condition on
the pages alone (`Paging.Pager.WritePageToDisk`). It needs more than 8159 bytes, and
`Storage.DensePage` is a page that meets it; a page of equal bytes never does (`Lz4Limits.SameSize`).
It cannot happen without compression. `Storage.SlotSafety` says why nothing larger is safe.

One more finding: `index_range_scan` encodes both bounds at once when the field has an
index, but without one only when a row is compared with them, so a bound of the wrong type
throws in one case and may not in the other (`Secondary.RangeAgreement`).

`docs/architecture.md:10` says that every change is logged before the page is modified.
`DB::insert_unlocked` appends to the page first; the model follows the code.

## Model

| member | source | states |
|---|---|---|
| Runs.Run | src/db.cpp:258-655 | every command of every run gets the reply of one map from id to row (status, rows each exactly once and in order, batch counts), and the engine ends as that map, order of rows and set of indexed fields; any cache capacity; it stops only if some page's block outgrows its slot |
| Runs.Step | src/db.cpp:258-655 | one command of any kind answers as the map, moves to the map's next state, and keeps a settled log settled |
| Runs.Create | src/db.cpp:173-234 | opening where no file exists gives the empty map, nothing cached, a clean synced log and a file that is its own checkpoint |
| Runs.CrashRound | src/db.cpp:173-234 | any run, a crash between operations or anywhere in a checkpoint, and a reopen: the engine is sound, and a full scan lists the map the run built, exactly when the file holds no id twice; then every operation can go on from that map; a cache with room for every page always meets the condition |
| Runs.Rounds | src/db.cpp:173-655 | any number of runs and crashes on a new database end as the map all the commands build, unless a crash finds an id on file twice |
| Stolen.Reopen | src/pager.cpp:41-90 | after any evictions and any cut of the log at or past the last sync: sound if and only if the file holds no id twice, and able to go on; with no record lost a full scan lists the old map exactly then; with records lost every id is as it was at or after the last surviving record, if the log restores what the file held |
| Stolen.ReopenEarlier | src/pager.cpp:213-240 | the same when page writes since the last checkpoint were lost: the file holds each counted page as of any moment since |
| Stolen.ReopenTorn | src/wal.cpp:122-133 | after an open that found a torn record, and while the log is shorter than that record announces, a reopen gives the file and the records found before: everything logged since, synced or not, is lost |
| Stolen.CrashAt | src/db.cpp:650-655 | a crash between operations or after any number of steps of a checkpoint (pages, page count, then the log), and any cut of the log: what Reopen promises holds of the file as it then is |
| Stolen.WriteOut | src/pager.cpp:148-178 | at each of these points the log is untouched and every counted page is on file as of some moment; once all are written, and always with room for every page in the cache, no id is on file twice |
| Stolen.AscendingUnique | src/pager.cpp:155-165 | first pages as they are now, the others as they were at the checkpoint: no id twice, for every number of pages written |
| Stolen.SoundScan | src/db.cpp:520-532 | an index with the ids of a map is sound exactly when a full scan lists that map, each row once |
| Stolen.PatchworkIsMixed | src/pager.cpp:41-90 | what recovery finds on pages each from its own moment is a mixture of the states of the history, duplicates or not |
| Stolen.PatchworkRecovers | src/db.cpp:692-767 | replaying the whole log on pages each from its own moment of the history gives the last map |
| Stolen.StaysOnPage | src/db.cpp:428-474 | a row that is not deleted never leaves its page, in any legal history |
| Stolen.FileIsPatchwork | src/pager.cpp:213-240 | whatever was evicted when, each checkpointed page is on file as it was at some moment since |
| Twice.FileCanHoldTwice | src/pager.cpp:76-82 | a run of the engine (four inserts, a checkpoint, an update, two gets, two cached pages, one STRING field) after which the file holds one id twice |
| Twice.CrashShowsTwice | src/pager.cpp:76-82 | a crash of that database, with the file holding an id twice, reopens without a fault, unsound, and a full scan does not list the acknowledged rows; any new capacity |
| Unordered.BatchTorn | src/db.cpp:342-366 | four erases of a batch with two cached pages, a crash before the sync and a reopen: the second row is gone and the first is not, the map after no prefix of the batch |
| Returns.FirstReturns | src/db.cpp:701-703 | a run with two crashes inside batches after which an id has a value older than every moment since the first reopen |
| Forgets.AcknowledgedLost | src/wal.cpp:122-133 | a run in which a row inserted and synced after a torn log was opened is gone at the next open |
| Recovery.CrashReopen | src/db.cpp:173-234 | cutting the log at any byte at or past the last sync, then opening: the file plus a prefix of the logged changes covering every synced one, by the same history and so at the recorded places; the log is clean again exactly when the cut falls between records |
| Recovery.CloseReopen | src/db.cpp:236-250 | close, which leaves a bare log header, then open gives the same rows in the same slots |
| Recovery.Open | src/db.cpp:173-234 | on any file and any log of changes, with every counted slot readable: sound exactly when no id is on file twice, then a valid engine whose map is the logical replay of the log onto the file and whose cache follows from it; its ids are those of the replay even when unsound |
| Recovery.Recover | src/pager.cpp:41-90 | slots that do not decode or carry another id are passed over; the offsets known are those of the readable pages, the next id is one past the last of them, the prepared index holds the first place of each id, and no duplicate was caught exactly when there is none |
| Recovery.SoundWhenUnique | src/pager.cpp:73-82 | skipping duplicates builds an index that is the inverse of the pages if and only if there are none |
| Recovery.ReplayLog | src/db.cpp:692-767 | replay keeps soundness both ways, ends with the ids of the logical replay, and on a sound index is a history of the logged changes that computes it |
| Recovery.SurvivingRecords | src/wal.cpp:306-394 | what a crash leaves of a clean log is a prefix with every synced record, and a clean log exactly when cut between records |
| Replay.ReplayConverges | src/db.cpp:695-765 | replaying any log from any mixture of the states its replay goes through ends in the last of them |
| Replay.CutConverges | src/db.cpp:695-765 | replaying a prefix of the log from such a mixture leaves each id as it was at or after that prefix, if the prefix restores the start |
| Replay.CutExactly | src/db.cpp:695-765 | for every start and surviving log: no mixture and no lost records make an id older if and only if each id the log inserts and does not delete last inserts to the value the start holds |
| Replay.LegalConverges | src/db.cpp:695-765 | replaying the log of a legal run, from any state whose value for each id is one the run gave it, ends in the run's last state |
| Replay.ReplayIdempotent | src/db.cpp:695-765 | replaying any log twice is replaying it once, from any state |
| Replay.ReplayMeans | src/db.cpp:701-703 | a logged insert of a present id and a logged delete of an absent one change nothing, the others their id alone |
| History.Lands | src/db.cpp:296-317 | in a history whose records carry their places every inserted row is in the page and slot of its record |
| History.HistoryOnTable | src/db.cpp:296-474 | the layouts of a history stand for the states of the replay of its changes |
| History.HistoryIsRun | src/db.cpp:296-474 | a history with nothing skipped is a legal run of map changes |
| History.SameHistory | src/db.cpp:695-765 | on a given file the logged changes determine the history, places included |
| Layouts.InsertIndexed | src/db.cpp:296-317 | appending at the chosen place keeps index and slots inverse and adds one row to the map |
| Layouts.EraseIndexed | src/db.cpp:428-474 | compaction plus slot repair restores the bijection and removes one row from the map |
| Layouts.PointsErase | src/db.cpp:464-474 | on an index that misses rows, compaction plus slot repair keeps every entry right and repairs none of the missing ones |
| Layouts.SelectIsTable | src/db.cpp:520-532 | storage order lists each selected row of the map exactly once |
| Layouts.ListedOnce | src/db.cpp:520-532 | if storage order lists the rows of any map once each, no id is in two places |
| Layouts.ListedIsSound | src/db.cpp:520-532 | if a full scan lists the map whose ids the index has, the index is sound |
| Layouts.InsertFits | src/db.cpp:677-690 | pages keep at most 64 rows and 8192 bytes |
| Layouts.LastPageTakes | src/db.cpp:677-690 | a row goes to the last page unless that would then hold more than 64 rows or 8192 bytes |
| Layouts.ListingInserted | src/db.cpp:305-307 | an inserted row is last in storage order |
| Layouts.ListingErased | src/db.cpp:428-462 | an erased row leaves the others in storage order |
| Engine.Database.Insert | src/db.cpp:258-263 | status as the map dictates; on success the map gains the row, last in order, durably and with one fsync; on refusal nothing changed |
| Engine.Database.InsertUnlocked | src/db.cpp:296-327 | errors come before any change; otherwise page, log, index and trees all gain the row at its place |
| Engine.Database.Erase | src/db.cpp:333-340 | status as the map dictates; on success the map loses the id, durably and with one fsync, and the other rows keep their order |
| Engine.Database.EraseUnlocked | src/db.cpp:428-462 | page, log, index and trees all lose exactly the row, or nothing changed |
| Engine.Database.RepairSlots | src/db.cpp:464-474 | after compaction every id of the page leads to a slot holding it, others untouched, on any index whose entries are right |
| Engine.Database.Update | src/db.cpp:368-393 | replaces the row of a present id with a storable one, which moves to the end, with one fsync for both records, or changes nothing |
| Engine.Database.InsertBatch | src/db.cpp:265-294 | all or nothing: the first error in order and nothing changed, or every row inserted in order, one fsync, and the count; no failure after validation |
| Engine.Database.UpdateBatch | src/db.cpp:395-426 | all or nothing, one fsync, and the count, as for inserts; the rows move to the end in order |
| Engine.Database.EraseBatch | src/db.cpp:342-366 | all or nothing, one fsync, and the count of erased rows |
| Contract.BatchIsSequence | src/db.cpp:265-294 | checking a batch up front against one map equals checking each row where the earlier ones left the map |
| Contract.BatchFails | src/db.cpp:265-294 | the first error of a prefix is the first error of the batch |
| Contract.InsertVerdict | src/db.cpp:265-294 | insert_batch accepts exactly new, distinct ids with storable rows |
| Contract.InsertFault | src/db.cpp:276-287 | the error of a row at any position: field count, then a known or repeated id, then its values |
| Contract.UpdateVerdict | src/db.cpp:395-419 | update_batch accepts exactly present, distinct ids with storable rows |
| Contract.UpdateFault | src/db.cpp:403-418 | the error of a row at any position: field count, repeated id, unknown id, values |
| Contract.EraseVerdict | src/db.cpp:342-358 | erase_batch accepts exactly present, distinct ids |
| Contract.EraseFault | src/db.cpp:352-357 | the error of an id at any position: repeated, then unknown |
| Contract.BatchMeans | src/db.cpp:274-287 | a batch passes exactly when every element passes where it stands |
| Contract.BatchFirst | src/db.cpp:274-287 | otherwise the first that does not decides |
| Contract.SingleVerdicts | src/db.cpp:368-383 | the single operations judge as batches of one, but update looks for the id first |
| Contract.PutAllRows | src/db.cpp:289-291 | a batch of distinct ids puts each of its rows in and leaves the other ids alone |
| Engine.Database.Get | src/db.cpp:480-494 | the row of the map, or not found |
| Engine.Database.Scan | src/db.cpp:520-532 | the rows of the map the filter accepts, each exactly once, in storage order |
| Engine.Database.CreateIndex | src/db.cpp:544-568 | a new tree files every row of the map; unknown fields refused; existing index kept |
| Engine.Database.DropIndex | src/db.cpp:570-573 | the other trees stay right |
| Engine.Database.IndexRangeScan | src/db.cpp:589-644 | the rows of the map in range, each exactly once: through an index with keys ascending and rows of one key in storage order, by full scan in storage order; a bound of another type throws at once with an index, and without one exactly when a row is compared with it |
| Engine.Database.FetchAll | src/db.cpp:632-643 | loading page by page returns each requested slot's row at its position |
| Secondary.FetchedRows | src/db.cpp:618-643 | rows fetched for a tree's pairs in range are the rows in range, sorted by key, stably |
| Secondary.InKeyOrderRows | src/db.cpp:618-643 | rows in key order are the same rows, each as often |
| Engine.RangeRefuses | src/db.cpp:589-616 | an unknown field is refused; an index refuses any bound of another type than the field's, the fallback a lower one if there is a row and an upper one if some row passes the lower |
| Engine.Database.Checkpoint | src/db.cpp:650-655 | the map is kept, the file holds the layout, the log is empty |
| Engine.Database.CheckpointSteps | src/db.cpp:650-655 | after any number of steps of it the log is untouched until the page count is written, and the page count until every page is |
| Engine.Database.WritablePage | src/db.cpp:677-690 | the last page if it takes the row, else a new one |
| Engine.Database.ReplayRecord | src/db.cpp:695-765 | one record acts as logical replay: present inserts and absent deletes skipped |
| Secondary.FileRow | src/db.cpp:319-326 | every tree follows an insert or erase of a row and lists the ids of each key in storage order |
| Secondary.FileNext | src/db.cpp:553-567 | filing the rows one after the other builds the tree they need, in order |
| Secondary.RangeAgreement | src/db.cpp:599-624 | index and fallback end the same way on every table if and only if both bounds are of the field's type |
| Secondary.Compares | src/db.cpp:582-616 | the fallback's test of a row is the index's range condition, and throws on a bound of another type |
| Secondary.RangeIsNatural | src/db.cpp:580-616 | key range equals range in the field type's own order, for all inclusivity flags |
| Secondary.FilterIsRange | src/db.cpp:42-56 | a filter with a minimum and a maximum selects exactly what the range scan between them does, inclusive, for both integer types |
| Secondary.FloatFilterIsRange | src/db.cpp:57-63 | so do floats, for numbers other than zero |
| Secondary.EqualityIsPoint | src/db.cpp:42-77 | a range scan from a value to itself selects the rows equal to it, for every type |
| Secondary.HasTypeMeans | src/bptree.cpp:73-98 | a bound is of the field's type exactly when a value of its alternative could be stored there |
| Keys.OrderPreserving | src/bptree.cpp:73-107 | encoded keys compare as uint32, int64, bool, byte strings in dictionary order, and floats in sign-magnitude total order (totalOrder, section 5.10 of IEEE 754-2008) |
| Keys.Lexicographic | src/bptree.cpp:100-107 | a key is less exactly when it is a proper prefix or smaller at the first difference |
| Floats.TotalIsNumber | src/bptree.cpp:28-37 | on numbers that total order is the order of the numbers, with -0 just below +0 |
| Floats.HardwareCompares | src/db.cpp:57-63 | comparing bit patterns is comparing the numbers they stand for, false for a NaN |
| Floats.SomeNumbers | src/db.cpp:57-63 | the numbers of 1, -2.5, the smallest subnormal and the largest finite pattern, and which patterns are NaNs |
| Keys.KeyInjective | src/bptree.cpp:73-98 | equal keys mean equal values |
| Keys.BigEndianOrder | src/bptree.cpp:12-19 | big-endian bytes compare as the numbers |
| Keys.EncodeIntBe | src/bptree.cpp:12-19 | the shifting loop writes the big-endian digits |
| Keys.KeyCompare | src/bptree.cpp:100-109 | memcmp then length is the sign of dictionary order |
| Tree.BPTree.Insert | src/bptree.cpp:135-152 | the id goes behind those of its key, unless it is one of them; other keys are as before |
| Tree.BPTree.Erase | src/bptree.cpp:154-166 | the id leaves its key, the others keep their order, and an emptied key goes |
| Tree.BPTree.RangeScan | src/bptree.cpp:174-203 | keys ascending, each key in range with exactly its ids in the order they were filed |
| Tree.LowerBound | src/bptree.cpp:121-133 | the first key not below the one sought |
| Index.Manager.Insert | include/xdl/index.h:37-51 | a map insert with duplicates refused, through buffer and threshold merge |
| Index.Manager.Find | include/xdl/index.h:53-67 | lookup in the map, in both modes |
| Index.Manager.Remove | include/xdl/index.h:69-88 | removal from the map, entry or buffered |
| Index.Manager.UpdateSlot | include/xdl/index.h:114-127 | changes one slot and no page |
| Index.Manager.IdsForPage | include/xdl/index.h:129-132 | exactly the ids whose entry names the page |
| Index.Manager.MergeBuffer | include/xdl/index.h:176-186 | the sorted vector then holds the whole map |
| Index.Merge | include/xdl/index.h:180-183 | sorted, nothing lost, nothing added |
| Paging.Pager.GetPage | src/pager.cpp:95-114 | any capacity: the page as last written in memory; what is cached, dirty and on file afterwards follows from what was before; stops if and only if it is a miss whose dirty victim's block outgrows its slot |
| Paging.Pager.MakeRoom | src/cache.cpp:99-105 | a dirty victim is on file before it goes, unless its block outgrows its slot, and exactly then it stops; the file stays right for every other page |
| Paging.Pager.NewPage | src/pager.cpp:121-126 | an empty page with the next id, resident; refused exactly when ids run out or the victim's block outgrows its slot |
| Paging.Pager.FlushAll | src/pager.cpp:148-178 | dirty pages in id order; the file holds the layout and counts its pages |
| Paging.Pager.FlushPages | src/pager.cpp:160-173 | the loop as far as any page: those pages are clean and on file, the page count is unchanged, and every counted page is on file as of some moment |
| Paging.Pager.FlushSteps | src/pager.cpp:148-178 | any number of steps of flush_all: pages in id order, and the page count only after all of them |
| Paging.Pager.WritePageToDisk | src/pager.cpp:213-233 | the slot is written and reads back whatever its size; no other slot changes if and only if the size, a function of the page's bytes, is at most 8192 |
| Paging.OverrunsLarge | src/pager.cpp:213-233 | a page whose block is larger than its slot has more than 8159 bytes |
| Paging.Pager.LoadFromDisk | src/pager.cpp:189-211 | the page the slot holds, with its row offsets |
| Cache.HoldsMostRecent | src/cache.cpp:20-105 | one access of a cache that holds the `capacity` most recently used pages leaves it holding them |
| Cache.RecentOrder | src/cache.cpp:20-36 | most recently used first: each page of the list has been used since the last use of every page behind it |
| Cache.PageCache.Put | src/cache.cpp:59-105 | a full cache drops the least recently used page, then the new one enters at the front; over the whole history of accesses the cache holds the most recently used pages |
| Cache.PageCache.Get | src/cache.cpp:20-36 | a hit moves to the front and changes nothing else, keeping the same invariant over the whole history |
| Storage.WritesSlot | src/pager.cpp:8-13 | a written slot reads back and every other slot is unaffected |
| Storage.SlotSafety | src/pager.cpp:8-13 | a write stays in its slot if and only if it fits it |
| Storage.CompressPage | src/compression.cpp:215-243 | the payload expands to the page; its size is the planned one, at most n + n/255 + 2 bytes |
| Storage.DensePage | src/compression.cpp:48-50 | a storable full page of one row whose block is larger than its slot |
| Storage.ReadSlot | src/pager.cpp:189-202 | header, payload and decompression of a slot, with every failure |
| Formats.SampleSlot | include/xdl/page.h:65-71 | whole slots byte by byte, compressed and not, and where slots lie |
| Formats.SampleRow | src/page.cpp:79-134 | a whole row byte by byte |
| Formats.SampleFields | src/page.cpp:79-134 | a value of each type byte by byte |
| Formats.SampleKeys | src/bptree.cpp:12-98 | index keys byte by byte |
| Formats.DeleteRecord | src/wal.cpp:190-250 | a whole log record byte by byte, checksum included |
| Formats.InsertPayload | src/wal.cpp:190-250 | an insert record carries kind 0, the ids, the slot and then its row |
| Formats.LogHeader | src/wal.cpp:112-125 | the log header byte by byte |
| Bytes.LittleEndian | include/xdl/page.h:14-60 | integers of each width are stored least significant byte first, signed ones in two's complement |
| Lz4Codec.Compress | src/compression.cpp:52-152 | for every capacity: written as planned, refused by its guard, or about to write past the end, which a roomy buffer excludes; with the bound's capacity never refused; the block's sequences stand for the input, its last five bytes are literals and its size is the planned one |
| Lz4Codec.SizeIsPlanned | src/compression.cpp:93-150 | every block that encodes an input by its plan has the size summed from the plan |
| Lz4Codec.PlannedBound | src/compression.cpp:48-50 | the planned size is at most n + n/255 + 2, within the bound the engine allocates |
| Lz4Codec.RoundTrip | src/compression.cpp:52-191 | the output decodes to the input if and only if no planned copy hides its overlap, a condition on the input alone; always below 65536 bytes |
| Lz4Codec.CompressMatches | src/compression.cpp:62-135 | the loop ends because the anchor grows, and emits exactly the planned sequences |
| Lz4Codec.EmitSequence | src/compression.cpp:90-131 | one sequence: the planned one, with the new anchor past the match although catch-up moves back, and everything written stands for the input so far |
| Lz4Codec.FindMatch | src/compression.cpp:71-88 | the accelerating search ends where the plan says; table entries are earlier positions; a found match is four equal bytes at distance 1 to 65535 |
| Lz4Codec.CatchUp | src/compression.cpp:90-91 | the match grows backward, never past the anchor |
| Lz4Codec.MatchLength | src/compression.cpp:113-120 | the match grows forward, never into the last five bytes |
| Lz4Codec.SequenceRoom | src/compression.cpp:93-129 | the unguarded match-length bytes stay in the buffer |
| Lz4Codec.Decompress | src/compression.cpp:154-191 | the in-place decoder computes the format's decoding on every input: bytes, error return, or the point where the language leaves it undefined |
| Lz4Limits.SameRoundTrip | src/compression.cpp:183-188 | runs of equal bytes fail to decode exactly when the copy length is 0 or 1 modulo 65536, first at 65542 bytes |
| Lz4Limits.NothingToCopy | src/compression.cpp:71-88 | an input without four repeated bytes is emitted as literals |
| Lz4Limits.LiteralsOutgrow | src/compression.cpp:137-150 | without a repetition the block exceeds a page slot exactly from 8160 bytes on |
| Lz4Limits.SmallFits | src/compression.cpp:48-50 | up to 8159 bytes the block fits a page slot, whatever the bytes |
| Lz4Limits.SameSize | src/compression.cpp:113-129 | the exact size of the block of equal bytes, at most one byte in 255 and eleven more |
| Lz4Limits.SearchPlaces | src/compression.cpp:71-88 | the search for a match looks exactly at the places whose steps grow by one every 64 failures, and stops before the last nine bytes |
| Lz4Limits.SampleBlock | src/compression.cpp:52-152 | the block of an input with two copies byte by byte, the second found through a position noted after the first |
| Lz4Limits.HashValues | src/compression.cpp:37-39 | the hash of some words |
| Lz4Limits.SmallBlocks | src/compression.cpp:154-191 | a block that decodes, and one for each way to be refused or undefined |
| Lz4Format.DecodesBlock | src/compression.cpp:154-191 | a block decodes to what its sequences stand for, and is undefined if and only if some copy hides its overlap |
| Lz4Format.CopyReproduces | src/compression.cpp:183-188 | a periodic copy of matching bytes, self-overlapping or not, reproduces the input |
| Crc.TableStep | src/wal.cpp:59-84 | one table lookup equals eight bitwise steps of the reflected polynomial 0xEDB88320 |
| Crc.InitTable | src/wal.cpp:59-70 | every entry is eight bitwise steps of its index |
| Crc.Compute | src/wal.cpp:77-84 | the table-driven loop equals the bit-by-bit checksum (the update of section 8 of RFC 1952, seed 0xDEADBEEF, no final xor) |
| Crc.OctetValue | src/wal.cpp:77-84 | the bits that enter the register are those of the byte's number |
| Formats.CheckValue | src/wal.cpp:59-84 | the register gives the check value of CRC-32 on the nine digits |
| Crc.DetectsChange | src/wal.cpp:77-84 | changing any one byte changes the checksum |
| Wal.Log.WriteRecord | src/wal.cpp:190-250 | file plus buffer grow by the record's encoding; the returned offset is its position |
| Wal.Log.Sync | src/wal.cpp:285-289 | every record is then in the synced part of the file, by at most one fsync |
| Wal.Log.Replay | src/wal.cpp:306-394 | the in-place parse loop computes the parse of the whole file |
| Wal.Log.Clear | src/wal.cpp:400-410 | an empty log, synced |
| Wal.ParsesLog | src/wal.cpp:340-391 | records parse back in order, whatever follows |
| Wal.TornLog | src/wal.cpp:340-391 | truncation at any byte leaves exactly the wholly contained records |
| Wal.CrashKeepsDurable | src/wal.cpp:285-394 | a cut at or past the last sync keeps every durable record |
| Wal.DamageStopsReplay | src/wal.cpp:354-369 | changing any one byte of a record outside its length field stops replay there with all earlier records intact |
| Wal.CleanTailExtends | src/wal.cpp:112-133 | records appended after a clean tail are replayed after the old ones |
| Wal.CleanTailOnly | src/wal.cpp:112-133 | every record logged after open is replayed if and only if no torn tail was found; for every torn tail a DELETE record the engine could log is lost |
| Wal.TornTailHides | src/wal.cpp:122-133 | whatever is appended after a torn record is lost to replay while it fits the announced length |
| Filter.MatchesRaw | src/db.cpp:28-85 | filtering serialised bytes accepts exactly the rows whose fields meet every bound set: equality, inclusive minimum and maximum in the type's order (IEEE for floats), leading bytes |
| Filter.Matches | src/db.cpp:87-134 | filtering the decoded row is the same acceptance, for unique field names |
| Rows.DecodeRow | src/page.cpp:151-198 | decoding inverts encoding wherever the row's bytes lie |
| Rows.ReadFieldOf | src/page.cpp:79-198 | one field reads back and the cursor moves by its width, whatever follows |
| Rows.RowByteSize | src/page.cpp:65-77 | the encoded length, or an error exactly for a wrong type or a string over 65535 bytes |
| Pages.Page.AppendRow | src/page.cpp:79-134 | bytes, offsets and count become those of the rows plus one |
| Pages.Page.EraseRow | src/page.cpp:136-149 | bytes and shifted offsets become those of the rows without one |
| Pages.GetRow | src/page.cpp:151-198 | any slot gives its row, or an error past the end |
| Pages.FindRow | src/page.cpp:200-209 | the first slot holding the id, or none |
| Pages.RowIdAt | include/xdl/page.h:121-124 | the id of the slot's row |
| Pages.RowBytes | include/xdl/page.h:140-148 | the slot's bytes are the row's encoding |
| Pages.RebuildRowOffsets | src/pager.cpp:24-35 | the offsets that appends and erases maintain |

## Left out

- Aliasing of cached pages: `get_mutable_page` hands out a reference; the model checks a page out as a value and stores it back before the next step.
- Paging.Pager.WritePageToDisk: after a write that runs into the next slot the model stops; what the damaged neighbour does to later operations is not followed.
- Recovery.Open: a counted slot that cannot be read is passed over, as in `recover`, and the model stops there (`Damaged`); operations on such a database are not followed. Log records of other kinds (COMMIT and CHECKPOINT) are never written by the engine.
- Recovery.Recover: with an unreadable slot what is built is stated, but not as a layout the engine can go on with.
- Recovery.CrashReopen: no dirty page evicted since the file was read or checkpointed; with evictions the claim is `Stolen.Reopen`, on the map and without places. The log found at open has no torn tail; `Wal.CleanTailOnly` and `Forgets.AcknowledgedLost` show that this is necessary.
- Wal.TornTailHides: one direction; once the announced length is passed, what replay finds depends on the checksum of bytes of two records.
- A crash while the 32-byte header of a new log is being written.
- Lz4Codec.Compress: where a buffer smaller than its `Roomy` condition would be overrun the model stops; the engine always passes the bound.
- Lz4Codec.Decompress: where the language leaves reads past the block, a zero offset or an overlapping memcpy undefined the model stops.
- Row sizes are unbounded sums; the 32-bit wrap needs rows of four gigabytes.
- IndexEntry.page_offset, which no read path uses.
- Threads, mutexes and the reader-writer lock: every public operation is one step.
- File descriptors, short reads and writes, fsync failures, and operations on a closed handle.
- Schema serialisation, schema matching in `DB::open`, migration, statistics, the 32-byte KeyBuffer, the memory map, the command line and the benchmark: they would add easy members.
- The system liblz4, whose code is not part of this repository.
