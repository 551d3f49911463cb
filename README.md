# A verified model of the DuckDB storage and commit core (with the TigerDB front-end)

This project models, in Dafny, seven sequential pieces of an early DuckDB fork. Each one is
modelled in the form the C++ takes: pure code as functions and lemmas, and state-changing
code as classes with `modifies` frames and loops with invariants.

- **Index keys** (`art_key.dfy`, module `ArtKey`). These are the byte keys of the adaptive radix tree. A signed
  integer of width 1, 2, 4 or 8 becomes its big-endian bytes with the sign bit of the first
  byte flipped. On a little-endian machine the `BSWAP` macros reverse the byte lanes first. A
  string becomes its bytes and a 0 terminator. Keys compare lexicographically, and on a tie the
  longer key is greater. The model proves that this comparison is a strict total order and that
  integer and string keys preserve the order of their values.
- **Transaction-local storage** (`local_storage.dfy`, module `LocalStorage`; helpers in `common.dfy`). Each table
  has a list of chunks of at most 1024 rows, sparse per-chunk deletion flags and local unique
  indexes. Row ids count from `MAX_ROW_ID`. The model covers `Append`, `Delete`, `Update`,
  `Scan`, `CheckCommit`, which pushes every table's rows into the shared indexes and undoes
  everything on the first conflict, and `Commit`, which appends the rows to the tables and logs
  them.
- **Commit protocol** (`commit_state.dfy`, module `CommitState`; write-ahead log in `wal.dfy`). This is the decision table
  that says which catalog changes are logged, the set-table rule, absolute row ids in delete and
  update records, and the dispatch on undo-entry kinds with and without a log.
- **String segments** (`string_layout.dfy`, `string_segment.dfy`, `string_updates.dfy`,
  `string_merge.dfy`; integer byte layout in `native_bytes.dfy`). A segment's block ends in a
  dictionary that grows backward, with offset 0 meaning NULL. Long strings go through
  big-string markers into overflow blocks filled by a bump allocator. Appends add a vector only
  while there is room, updates record sorted update entries, and a rollback filters them in
  place and restores the null mask. The model proves that every appended row and every updated
  row reads back as the value written.
- **Column navigation** (`column_data.dfy`, module `ColumnData`). This covers the scan cursor over a
  column's segments, the append loop that fills transient segments and adds new ones, and the
  routing of fetches and updates to the segment that holds a row.
- **PRAGMA handling** (`pragma_handler.dfy`, module `PragmaHandler`). This covers the case-insensitive keyword
  dispatch that sets profiler and buffer-manager state, and the memory-limit scanner with its
  decimal unit table.
- **TigerDB** (`tigerdb.dfy`, module `TigerDb`). This is a space tokenizer plus the `SET T1/T2 AS name` and
  `SHOW META/DATA` state machine that rewrites to `SELECT * FROM name`.

Several constants do not appear in the files modelled here: `STANDARD_VECTOR_SIZE` = 1024,
`MAX_ROW_ID` = 4611686018427388000, `BLOCK_SIZE` = 262136, `BLOCK_ALLOC_SIZE` = 262144,
`BIG_STRING_MARKER` = 65535, the marker sizes 12 and 14 and `STRING_BLOCK_LIMIT` = 4096. They
take the values of DuckDB's headers of the same period. A vector size of 1024 agrees with the
"32KB out of a 256KB block" comment at `src/storage/string_segment.cpp:297-298`.

## Model

| member | source | states |
|---|---|---|
| ArtKey.FlipSign | src/execution/index/art/art_key.cpp:20-22 | flipping the sign bit adds 128 modulo 256 |
| ArtKey.FlipSignIsXor | src/execution/index/art/art_key.cpp:20-22 | xor with 128 is the same as adding 128 on a byte |
| ArtKey.FlipSignInvolutive | src/execution/index/art/art_key.cpp:20-22 | flipping twice gives the byte back |
| ArtKey.BSwap16Lanes | src/execution/index/art/art_key.cpp:8 | BSWAP16 exchanges the two byte lanes and is its own inverse |
| ArtKey.BSwap32Lanes | src/execution/index/art/art_key.cpp:10-12 | BSWAP32 moves lane i to lane 3-i and is its own inverse |
| ArtKey.BSwap64Lanes | src/execution/index/art/art_key.cpp:14-18 | BSWAP64 moves lane i to lane 7-i and is its own inverse |
| ArtKey.BSwap16IsByteSwap | src/execution/index/art/art_key.cpp:8 | the byte lanes of BSWAP16(x), as a number, are the lanes of x reversed, which is the `ByteSwap` that `CreateDataWord` applies |
| ArtKey.BSwap32IsByteSwap | src/execution/index/art/art_key.cpp:10-12 | the byte lanes of BSWAP32(x), as a number, are the lanes of x reversed |
| ArtKey.BSwap64IsByteSwap | src/execution/index/art/art_key.cpp:14-18 | the byte lanes of BSWAP64(x), as a number, are the lanes of x reversed |
| ArtKey.LanesOfValue | src/execution/index/art/art_key.cpp:121-140 | the number that byte lanes make up has exactly those lanes, so a register and its lanes determine each other |
| ArtKey.ReverseInvolutive | src/execution/index/art/art_key.cpp:8-18 | reversing the byte order twice gives the bytes back |
| ArtKey.CreateDataWord | src/execution/index/art/art_key.cpp:121-140 | on either byte order the key is the word's big-endian bytes with byte 0's sign bit flipped |
| ArtKey.CreateData | src/execution/index/art/art_key.cpp:114-140 | an integer key has exactly `sizeof(T)` bytes: the big-endian bytes of the value shifted by half the range |
| ArtKey.SignFlipShifts | src/execution/index/art/art_key.cpp:114-140 | flipping the top bit of the two's-complement bytes is the same as adding half the range |
| ArtKey.CreateStringKey | src/execution/index/art/art_key.cpp:159-164 | a string key is the string's bytes followed by one 0 byte |
| ArtKey.KeyGreater | src/execution/index/art/art_key.cpp:166-175 | `operator>` returns the lexicographic order, where a longer key wins a tie |
| ArtKey.KeyGreaterOrEqual | src/execution/index/art/art_key.cpp:177-186 | `operator>=` returns the lexicographic greater-or-equal order |
| ArtKey.KeyEquals | src/execution/index/art/art_key.cpp:188-198 | `operator==` holds exactly when the lengths and all bytes are equal |
| ArtKey.GreaterOrEqualIsGreaterOrEquals | src/execution/index/art/art_key.cpp:166-198 | `a >= b` holds iff `a > b` or `a == b` |
| ArtKey.GreaterIrreflexive | src/execution/index/art/art_key.cpp:166-175 | no key is greater than itself |
| ArtKey.GreaterTransitive | src/execution/index/art/art_key.cpp:166-175 | the greater-than order is transitive |
| ArtKey.GreaterConnected | src/execution/index/art/art_key.cpp:166-175 | of two different keys one is greater, so the order is total |
| ArtKey.GreaterAsymmetric | src/execution/index/art/art_key.cpp:166-175 | two keys are never each greater than the other |
| ArtKey.BigEndianOrder | src/execution/index/art/art_key.cpp:114-140 | big-endian bytes of the same width order like the numbers and are equal only for equal numbers |
| ArtKey.ShiftedKeyOrder | src/execution/index/art/art_key.cpp:114-140 | keys of shifted values order like the signed values |
| ArtKey.IntegerKeyOrder | src/execution/index/art/art_key.cpp:114-140 | for same-width integers, `a < b` iff key(b) > key(a), and keys are equal iff the values are |
| ArtKey.StringKeyOrder | src/execution/index/art/art_key.cpp:159-175 | string keys order like the strings, and equal keys mean equal strings |
| ArtKey.EncodeFloat | src/execution/index/art/art_key.cpp:24-59 | zero encodes as 0, and the infinities and NaN as words with an all-ones exponent; the sign bit is set only for -inf and the mantissa is non-zero only for NaN |
| ArtKey.EncodeDouble | src/execution/index/art/art_key.cpp:62-108 | the same sentinel rules for 64-bit words with an 11-bit exponent |
| ArtKey.EncodeFloatWords | src/execution/index/art/art_key.cpp:24-59 | the sentinel words are 0, 0xFF800000, 0x7F800000 and 0x7F8004D2 |
| ArtKey.FloatKeys | src/execution/index/art/art_key.cpp:142-148 | the float keys of zero, -inf, +inf and NaN are these four byte strings on either byte order |
| ArtKey.FloatSentinelOrder | src/execution/index/art/art_key.cpp:142-148 | the float keys order as -inf < 0 < +inf < NaN |
| NativeBytes.LittleEndianRoundTrip | src/storage/string_segment.cpp:370-376 | a length written with memcpy on a little-endian machine reads back as the same number |
| NativeBytes.SignedRoundTrip | src/storage/string_segment.cpp:494-508 | a signed block id or offset written with memcpy reads back unchanged |
| Common.KeysAppend | src/storage/local_storage.cpp:118-126 | the keys of two row batches are the sum of their keys |
| Common.AcceptsInParts | src/storage/local_storage.cpp:118-126 | a unique index accepts a batch iff it accepts the first part and then, holding it, the second |
| Common.WithoutWithKeys | src/storage/local_storage.cpp:299-308 | removing the keys of rows just added gives the indexes back |
| Common.AcceptedInParts | src/storage/local_storage.cpp:274-287 | a chunk list is accepted iff each chunk is accepted after the chunks before it |
| Common.DuplicateKeyRejected | src/storage/local_storage.cpp:118-126 | a batch that repeats a unique key, or carries a key the index already holds, is rejected |
| LocalStorage.CollectionAppendPacked | src/storage/local_storage.cpp:126 | appending to a chunk collection keeps every chunk full except the last and adds exactly the rows |
| LocalStorage.RowAtPosition | src/storage/local_storage.cpp:135-148 | row id `MAX_ROW_ID + i` names the i-th local row, and names none past the end |
| LocalStorage.AppendedRowIds | src/storage/local_storage.cpp:108-115 | appended rows get consecutive ids from `MAX_ROW_ID` plus the old row count |
| LocalStorage.UnsetMembers | src/storage/local_storage.cpp:64-78 | the selection holds exactly the positions below the count whose flag is unset |
| LocalStorage.UnsetAscending | src/storage/local_storage.cpp:64-78 | the selection is strictly ascending |
| LocalStorage.AllDeletedNoneSelected | src/storage/local_storage.cpp:64-78 | a chunk whose rows are all deleted selects nothing |
| LocalStorage.NewStorage | src/storage/local_storage.cpp:10-23 | new storage has no chunks, no deletions and an empty local copy of each unique index |
| LocalStorage.SelectionIsUndeleted | src/storage/local_storage.cpp:64-78 | a scan selects exactly the undeleted rows of the chunk, in ascending order |
| LocalStorage.ScanAllColumns | src/storage/local_storage.cpp:80-92 | scanning every column of a chunk gives its undeleted rows |
| LocalStorage.ScanRowIdsNameTheirRows | src/storage/local_storage.cpp:80-92 | a scanned row-id column names the row it was scanned from |
| LocalStorage.NothingDeletedAllVisible | src/storage/local_storage.cpp:235-257 | with no deletions every chunk is visible |
| LocalStorage.FirstChunkDeletedHidesTheRest | src/storage/local_storage.cpp:248-252 | in the loop as written, a fully deleted first chunk hides a non-empty second chunk |
| LocalStorage.IndexLoopDecides | src/storage/local_storage.cpp:118-122 | the index loop accepts iff every unique index accepts the chunk, and then all of them hold its keys |
| LocalStorage.IndexLoopTwo | src/storage/local_storage.cpp:118-122 | with two indexes, the loop as written keeps the first index's new keys when the second index rejects |
| LocalStorage.RejectedChunkLeavesKeysBehind | src/storage/local_storage.cpp:118-122 | in the loop as written a rejected append leaves keys behind, so that a later valid append is refused |
| LocalStorage.GetChunk | src/storage/local_storage.cpp:135-148 | the chunk index is `(id - MAX_ROW_ID) / STANDARD_VECTOR_SIZE` |
| LocalStorage.MarkTwice | src/storage/local_storage.cpp:169-176 | marking rows deleted is idempotent |
| LocalStorage.DeletedRowsAreNotScanned | src/storage/local_storage.cpp:150-177 | after a delete the chunk's scan selects exactly the previously selected rows that were not deleted |
| LocalStorage.FirstNotInPlace | src/storage/local_storage.cpp:195-216 | the update stops at the first column whose type cannot be updated in place |
| LocalStorage.WriteColumnUnlisted | src/storage/local_storage.cpp:180-188 | an update leaves every unlisted row unchanged |
| LocalStorage.WriteColumnOthers | src/storage/local_storage.cpp:180-188 | an update leaves every other column unchanged |
| LocalStorage.WriteColumnListed | src/storage/local_storage.cpp:180-188 | a listed row holds the update's value in the updated column |
| LocalStorage.WriteColumns | src/storage/local_storage.cpp:219-233 | updating columns keeps every row's width |
| LocalStorage.InsertsCarryTheRows | src/storage/local_storage.cpp:331-339 | the logged insert records carry exactly the committed rows in order |
| LocalStorage.TemporaryTablesNotLogged | src/storage/local_storage.cpp:326-337 | committing only temporary tables logs nothing |
| LocalStorage.Reset | src/storage/local_storage.cpp:310-314 | resetting keeps every table and clears every append state |
| LocalStorage.CheckedAll | src/storage/local_storage.cpp:259-318 | a check that gets through every table means all tables were accepted, and the shared indexes then hold the local rows |
| LocalStorage.FailedCheck | src/storage/local_storage.cpp:262-288 | a check that fails means some table was not accepted |
| LocalStorage.ResetRolledBack | src/storage/local_storage.cpp:289-317 | after a failure, resetting the append states leaves every table's local rows in place and rolled back |
| LocalStorage.RejectedChunk | src/storage/local_storage.cpp:274-287 | a rejected chunk means the table's whole local data is rejected |
| LocalStorage.AppendChunksToIndexes | src/storage/local_storage.cpp:274-287 | the shared indexes accept the chunks iff they accept all local rows, and they keep exactly the keys of the chunks done so far |
| LocalStorage.RemoveChunksFromIndexes | src/storage/local_storage.cpp:299-308 | removal takes out exactly the keys of the chunks below `max_row` |
| LocalStorage.CommitChunks | src/storage/local_storage.cpp:331-339 | committing appends the chunks' rows to the table and logs them unless the table is temporary |
| LocalStorage.Cleared | src/storage/local_storage.cpp:36-41 | clearing leaves no visible rows |
| LocalStorage.LocalScanState.constructor | src/storage/local_storage.cpp:43-52 | a new scan state has no table and all counters at zero |
| LocalStorage.LocalStorage.constructor | src/storage/local_storage.cpp:10-23 | new local storage holds no tables |
| LocalStorage.LocalStorage.InitializeStorageScan | src/storage/local_storage.cpp:28-34 | the scan starts at chunk 0 and ends at the last chunk, using that chunk's size |
| LocalStorage.LocalStorage.InitializeScan | src/storage/local_storage.cpp:43-52 | a table without storage gives an empty scan, and otherwise the scan is set up over its chunks |
| LocalStorage.LocalStorage.Scan | src/storage/local_storage.cpp:54-95 | a finished or table-less scan returns nothing; otherwise it returns the chunk's undeleted rows and advances by one |
| LocalStorage.LocalStorage.LocalIndexesAccept | src/storage/local_storage.cpp:117-122 | the answer is whether every local unique index accepts the chunk |
| LocalStorage.LocalStorage.Append | src/storage/local_storage.cpp:97-127 | storage is created on the first append; a rejected chunk changes nothing and reports a constraint error; an accepted chunk is added to the collection and its keys to the indexes |
| LocalStorage.LocalStorage.MarkDeleted | src/storage/local_storage.cpp:169-176 | the new flags are the old ones with the listed positions set |
| LocalStorage.LocalStorage.Delete | src/storage/local_storage.cpp:150-177 | only the target chunk's flags change, starting all-false when absent |
| LocalStorage.LocalStorage.UpdateData | src/storage/local_storage.cpp:180-188 | the result is the rows with the column written at the listed positions |
| LocalStorage.LocalStorage.UpdateChunk | src/storage/local_storage.cpp:190-217 | the columns are written up to the first one that cannot be updated in place, and success means there was none |
| LocalStorage.LocalStorage.Update | src/storage/local_storage.cpp:219-233 | only the target chunk is rewritten; an unsupported column type reports an error after the earlier columns were written |
| LocalStorage.LocalStorage.CheckTable | src/storage/local_storage.cpp:262-288 | the answer is whether the shared indexes accept all the table's rows, and the indexes keep the keys of the chunks done |
| LocalStorage.LocalStorage.CheckCommit | src/storage/local_storage.cpp:259-318 | success iff every table's rows are accepted; on failure the indexes are restored, the append states reset and a constraint error reported; a storage with no chunks is accepted |
| LocalStorage.LocalStorage.ResetAppendStates | src/storage/local_storage.cpp:310-314 | every append state is reset |
| LocalStorage.LocalStorage.Commit | src/storage/local_storage.cpp:320-344 | every table gets its visible local rows, the log gets the insert records and the storage ends empty; a storage with no chunks adds no rows |
| LocalStorage.RejectedFirstAppendLeavesNoChunks | src/storage/local_storage.cpp:28-33 | a first append with two equal keys under a unique index is rejected and leaves a storage with no chunks, whose last chunk `InitializeScan` reads as written |
| LocalStorage.LocalStorage.CommitTable | src/storage/local_storage.cpp:322-340 | one table gets its visible rows and the log gets that table's records |
| LocalStorage.LocalStorage.ScanTableStorage | src/storage/local_storage.cpp:235-257 | the scan yields every chunk with an undeleted row, skipping the fully deleted ones, and nothing for a storage with no chunks |
| LocalStorage.LocalStorage.ScanTableStorageAsWritten | src/storage/local_storage.cpp:248-252 | as written, the scan stops at the first chunk with no undeleted row |
| CommitState.CatalogRecords | src/transaction/commit_state.cpp:24-75 | the full decision table for catalog changes: which are logged, which are skipped, and which throw |
| CommitState.SwitchRecords | src/transaction/commit_state.cpp:16-22 | a set-table record is written iff the table differs from the current one |
| CommitState.UpdateRowIdsLocate | src/transaction/commit_state.cpp:115-117 | an update's row id lies in the recorded vector, at the recorded tuple |
| CommitState.Select | src/transaction/commit_state.cpp:110-111 | selection picks the values at the selected positions |
| CommitState.CatalogEntry.constructor | src/transaction/commit_state.cpp:24-75 | a catalog entry holds its kind, name, parent and timestamp |
| CommitState.UpdateInfo.constructor | src/transaction/commit_state.cpp:95-125 | an update info holds its table, column, vector and tuples |
| CommitState.UpdateChunk.constructor | src/transaction/commit_state.cpp:100-105 | a fresh scratch chunk of the column's type has two vector-sized columns |
| CommitState.CommitState.constructor | src/include/duckdb/transaction/commit_state.hpp:24-34 | a commit state starts with no current table and no scratch chunks, and the log defaults to none |
| CommitState.CommitState.SwitchTable | src/transaction/commit_state.cpp:16-22 | the current table becomes the table, with a set-table record only on a change |
| CommitState.CommitState.WriteCatalogEntry | src/transaction/commit_state.cpp:24-75 | the log grows by the decision table's records, or the decision table's error is reported |
| CommitState.CommitState.WriteDelete | src/transaction/commit_state.cpp:77-93 | the delete record carries exactly `base_row + rows[i]` for each row, after any set-table record; the scratch chunk is created once |
| CommitState.CommitState.WriteUpdate | src/transaction/commit_state.cpp:95-125 | the update record carries absolute row ids and values; the scratch chunk is rebuilt only when absent or of another type |
| CommitState.CommitState.FillUpdateChunk | src/transaction/commit_state.cpp:106-120 | every updated tuple's slot holds its value and absolute row id |
| CommitState.CommitState.CommitEntry | src/transaction/commit_state.cpp:127-173 | stamps the commit id on a catalog entry's new version, on an update's version number and on the delete version of each deleted row, leaving other rows' versions alone; reduces the cardinality on a delete; logs only with a log and a non-temporary table; does nothing for data; throws for unknown kinds |
| CommitState.ChunkVersionInfo.CommitDelete | src/transaction/commit_state.cpp:148-149 | each listed row's delete version becomes the commit id, and every other row keeps its version |
| StringLayout.Splice | src/storage/string_segment.cpp:370-376 | a memcpy writes the bytes at the position and leaves the rest of the block as it was |
| StringLayout.InlineBytes | src/storage/string_segment.cpp:366-376 | an inline entry takes the string's length plus 3 bytes |
| StringLayout.MarkerBytes | src/storage/string_segment.cpp:494-501 | a marker takes `BIG_STRING_MARKER_SIZE` bytes |
| StringLayout.MarkerRoundTrip | src/storage/string_segment.cpp:494-508 | reading a marker back gives the marker length and the same block id and offset |
| StringLayout.InlineLength | src/storage/string_segment.cpp:366-376 | an inline entry's length field and bytes read back as the string |
| StringLayout.OverflowBytes | src/storage/string_segment.cpp:397-427 | an overflow entry takes the string's length plus 5 bytes |
| StringLayout.OverflowReadBack | src/storage/string_segment.cpp:486-492 | an overflow string reads back from its block |
| StringLayout.InlineReadBack | src/storage/string_segment.cpp:170-212 | an inline entry resolves to its own dictionary offset and reads back as the string |
| StringLayout.MarkerReadBack | src/storage/string_segment.cpp:170-212 | a marker entry resolves to the marker's location, which reads back as the string |
| StringLayout.ReadBack | src/storage/string_segment.cpp:170-212 | resolving a stored entry and fetching its location gives the stored value, NULL included |
| StringLayout.HoldsFrame | src/storage/string_segment.cpp:397-427 | writes past the dictionary's low end and growth of the overflow blocks keep a stored value readable |
| StringUpdates.Find | src/storage/string_segment.cpp:137-168 | the index found holds the id, and no index is found iff the id is absent |
| StringUpdates.FindAscending | src/storage/string_segment.cpp:145-160 | in sorted ids, the first id not below x is x's index, or x is absent |
| StringUpdates.RollbackStep | src/storage/string_segment.cpp:674-692 | one step of the rollback filter keeps at most one entry and uses at most one rolled-back tuple |
| StringUpdates.StepIsLookup | src/storage/string_segment.cpp:674-692 | a step keeps the entry when it is not rolled back, and otherwise restores the old location only when it is an overflow block |
| StringUpdates.RollbackIsLookup | src/storage/string_segment.cpp:672-693 | the in-place walk with two cursors equals a per-entry lookup in the rolled-back tuples |
| StringUpdates.RestoredOrder | src/storage/string_segment.cpp:672-693 | the entries left after a rollback stay sorted and come from the original entries |
| StringUpdates.RestoreBits | src/storage/string_segment.cpp:667-669 | the rolled-back rows get their prior null bits back |
| StringUpdates.StringUpdateInfo.constructor | src/storage/string_segment.cpp:513-529 | a new update info is empty |
| StringUpdates.StringUpdateInfo.Place | src/storage/string_segment.cpp:677-688 | writing one entry leaves all the others unchanged |
| StringUpdates.StringUpdateInfo.Filter | src/storage/string_segment.cpp:672-693 | the filtered prefix is the rollback of the old entries |
| StringUpdates.StringUpdateInfo.Rollback | src/storage/string_segment.cpp:672-701 | the entries become the restored ones, and the count says when nothing remains |
| StringMerge.MergePick | src/storage/string_segment.cpp:531-560 | each id in the merge of sorted ids comes from the new update when it has it, and otherwise from the earlier one |
| StringMerge.MergeAscending | src/storage/string_segment.cpp:531-560 | the merge of sorted ids is sorted |
| StringMerge.MergeRows | src/storage/string_segment.cpp:531-560 | the merge holds exactly the ids of both inputs |
| StringMerge.MergedInfo | src/storage/string_segment.cpp:531-560 | merged entries are sorted, fit one vector, carry the new location for new rows and keep the earlier entry otherwise |
| StringMerge.CreateIsMerge | src/storage/string_segment.cpp:513-529 | creating an update info is the merge with nothing earlier |
| StringMerge.CreateStringUpdate | src/storage/string_segment.cpp:513-529 | the new info lists the updated rows with the written locations |
| StringMerge.MergeStringUpdate | src/storage/string_segment.cpp:531-560 | the new info is the merge of the updated rows with the earlier entries |
| StringMerge.RecordedMaskMeans | src/storage/string_segment.cpp:584-591 | with the row index, the undo record's null bit is the base bit for newly picked rows and the kept bit otherwise |
| StringMerge.MergedRecordBit | src/storage/string_segment.cpp:565-600 | a merged undo record covers both updates' rows and keeps the earliest null bit of each |
| StringMerge.MergedRecordMeans | src/storage/string_segment.cpp:565-600 | a merged undo record keeps the earliest prior location of each row |
| StringMerge.SetNullBits | src/storage/string_segment.cpp:633-635 | the updated rows' null bits become the new values' nullness |
| StringMerge.FirstRecordRestoresMask | src/storage/string_segment.cpp:639-669 | rolling back a first update restores the vector's null mask |
| StringMerge.MergedRecordRestoresMask | src/storage/string_segment.cpp:565-669 | rolling back a second update through the merged record restores the mask from before both updates |
| StringMerge.AsWrittenRollbackNullsRow | src/storage/string_segment.cpp:588 | as written, the rollback of the merged record leaves a row NULL that was not NULL before |
| StringSegment.BufferManager.Allocate | src/storage/string_segment.cpp:403-410 | an allocation returns a new block id holding a zeroed buffer |
| StringSegment.WrittenReadsBack | src/storage/string_segment.cpp:518-526 | a value written for an update reads back from its location |
| StringSegment.UpdatedRowsReadBack | src/storage/string_segment.cpp:605-653 | after an update every updated row reads back as its new value, NULL included, and the other rows keep their earlier entries |
| StringSegment.BaseValues | src/storage/string_segment.cpp:83-113 | with no updates each fetched row is its stored value |
| StringSegment.MergeValues | src/storage/string_segment.cpp:83-113 | with updates each fetched row is the update's value when the row is updated, and otherwise the stored value |
| StringSegment.BaseLocations | src/storage/string_segment.cpp:137-168 | without updates each location is the dictionary's location for the row |
| StringSegment.MergeLocations | src/storage/string_segment.cpp:137-168 | with updates each location comes from the update when the row has one |
| StringSegment.NullBits | src/storage/string_segment.cpp:633-635 | a row's null bit is set iff its value is NULL |
| StringSegment.UndoRecord | src/storage/string_segment.cpp:639-650 | the undo record is for the vector being updated |
| StringSegment.StringSegment.constructor | src/storage/string_segment.cpp:15-31 | a new segment allocates its block, holds no rows and has one vector of room |
| StringSegment.StringSegment.ExpandStringSegment | src/storage/string_segment.cpp:40-61 | the segment gains one vector; the null mask and offsets grow, and the version and update lists gain an empty slot |
| StringSegment.StringSegment.WriteStringMemory | src/storage/string_segment.cpp:397-427 | the string goes at the head block's old offset, and a new head of at least `BLOCK_ALLOC_SIZE` bytes is pushed when there is none or it is full |
| StringSegment.StringSegment.WriteStringMarker | src/storage/string_segment.cpp:494-501 | the marker's bytes are written at the position, and nothing else changes |
| StringSegment.StringSegment.Append | src/storage/string_segment.cpp:287-318 | the segment gains exactly the appended values in order; it stops early only when every vector is full and there is no room for another |
| StringSegment.StringSegment.AppendData | src/storage/string_segment.cpp:320-384 | every value of the range is stored so that it reads back |
| StringSegment.StringSegment.AppendNull | src/storage/string_segment.cpp:331-340 | NULL is stored as offset 0 with the null bit set |
| StringSegment.StringSegment.AppendInline | src/storage/string_segment.cpp:366-376 | a short string is stored inline in the dictionary |
| StringSegment.StringSegment.AppendSpilled | src/storage/string_segment.cpp:345-364 | a long string goes to an overflow block, with a marker in the dictionary |
| StringSegment.StringSegment.ReadAll | src/storage/string_segment.cpp:170-212 | every appended row reads back as the value appended |
| StringSegment.StringSegment.FetchStringLocations | src/storage/string_segment.cpp:137-168 | each row's location is the update's when the sorted update ids hold the row, and the dictionary's otherwise |
| StringSegment.StringSegment.FetchBaseData | src/storage/string_segment.cpp:83-113 | the vector's null mask is copied, and each row is its current value with updates applied |
| StringSegment.StringSegment.RollbackUpdate | src/storage/string_segment.cpp:655-703 | the prior null bits return, the entries are filtered as by lookup, and the vector's update info is dropped when none remain |
| StringSegment.StringSegment.SetNulls | src/storage/string_segment.cpp:632-635 | the updated rows' null bits are set from the new values |
| StringSegment.StringSegment.Update | src/storage/string_segment.cpp:605-653 | the new strings are written, the entries merged, the null bits set and the undo record built from the prior locations and bits |
| ColumnData.SegmentOf | src/storage/column_data.cpp:100 | the segment found holds the row, and none is found iff no segment holds it |
| ColumnData.AdvanceCounts | src/storage/column_data.cpp:47-54 | every step of the cursor leaves one vector fewer to scan |
| ColumnData.ScanCoversColumn | src/storage/column_data.cpp:20-24 | a scan from the start has exactly the column's vectors to go |
| ColumnData.Filled | src/storage/column_data.cpp:79 | appending to a segment adds what fits, and a short copy means the segment is full |
| ColumnData.ColumnScanState.Next | src/storage/column_data.cpp:47-54 | the cursor moves one vector on, or to the next segment's first vector once the segment is exhausted |
| ColumnData.ColumnData.constructor | src/storage/column_data.cpp:10-11 | a new column has no segments and no persistent rows |
| ColumnData.ColumnData.Initialize | src/storage/column_data.cpp:13-18 | the loaded segments are appended in order and their rows counted as persistent |
| ColumnData.ColumnData.InitializeScan | src/storage/column_data.cpp:20-24 | the scan starts at the first segment's first vector, not initialized |
| ColumnData.ColumnData.Scan | src/storage/column_data.cpp:26-35 | the current vector is scanned and the cursor advanced |
| ColumnData.ColumnData.IndexScan | src/storage/column_data.cpp:37-45 | the current vector is scanned, setting up the segment on its first vector |
| ColumnData.ColumnData.AppendTransientSegment | src/storage/column_data.cpp:120-123 | an empty transient segment is added at the end |
| ColumnData.ColumnData.InitializeAppend | src/storage/column_data.cpp:56-72 | the append target is transient, newly created at `persistent_rows` when there was none |
| ColumnData.ColumnData.AppendToSegment | src/storage/column_data.cpp:79 | the last segment takes as many values as fit |
| ColumnData.ColumnData.NextSegment | src/storage/column_data.cpp:86-91 | a new transient segment starts where the rows end |
| ColumnData.ColumnData.Append | src/storage/column_data.cpp:74-95 | the column's rows become the old rows followed by the whole vector |
| ColumnData.ColumnData.Fetch | src/storage/column_data.cpp:105-111 | the fetch goes to the segment holding the row, at vector `(row - start) / STANDARD_VECTOR_SIZE` |
| ColumnData.ColumnData.FetchRow | src/storage/column_data.cpp:113-118 | the row is fetched from the segment that holds it |
| ColumnData.ColumnData.Update | src/storage/column_data.cpp:97-103 | the batch goes to the segment of the first selected id |
| ColumnData.FillKeepsValid | src/storage/column_data.cpp:74-95 | filling the last segment keeps the segments contiguous and adds exactly the copied values |
| ColumnData.NewSegmentKeepsValid | src/storage/column_data.cpp:86-91 | a new segment at the end of the rows keeps the segments contiguous |
| ColumnData.InitializeKeepsValid | src/storage/column_data.cpp:13-18 | loaded segments keep the column contiguous, and `persistent_rows` counts the rows of persistent segments |
| PragmaHandler.Lower | src/planner/pragma_handler.cpp:25 | lower-casing maps every character and keeps the length |
| PragmaHandler.DecimalRoundTrip | src/planner/pragma_handler.cpp:116 | a number written in decimal scans back as the same number |
| PragmaHandler.ParseNumber | src/planner/pragma_handler.cpp:116 | an optionally negative digit string is a number, and only a leading minus makes it negative |
| PragmaHandler.RunEndFinds | src/planner/pragma_handler.cpp:101-125 | a scan stops at the first character outside its class |
| PragmaHandler.UnitSpelling | src/planner/pragma_handler.cpp:133-145 | every accepted unit is lower case and starts with b, k, m, g or t |
| PragmaHandler.MemoryLimitRoundTrip | src/planner/pragma_handler.cpp:99-148 | a number and a unit in any case and spacing give the number times the unit's decimal multiplier |
| PragmaHandler.NegativeMeansUnlimited | src/planner/pragma_handler.cpp:126-130 | a negative number means no limit, whatever follows |
| PragmaHandler.BareNumberRejected | src/planner/pragma_handler.cpp:143-145 | a number without a unit is rejected as an unknown unit |
| PragmaHandler.MissingNumberRejected | src/planner/pragma_handler.cpp:110-112 | input without a number is rejected |
| PragmaHandler.KeywordIgnoresCase | src/planner/pragma_handler.cpp:25 | keywords differing only in case select the same pragma |
| PragmaHandler.KeywordOf | src/planner/pragma_handler.cpp:25-95 | an unrecognised keyword is reported in lower case |
| PragmaHandler.TableInfoStatement | src/planner/pragma_handler.cpp:26-45 | `table_info` needs CALL with one parameter and gives `pragma_table_info` of it |
| PragmaHandler.PrintFormatOf | src/planner/pragma_handler.cpp:46-64 | no argument gives QUERY_TREE, CALL is rejected, and success never gives NONE |
| PragmaHandler.OutputLocationOf | src/planner/pragma_handler.cpp:72-77 | the output location must be a VARCHAR assignment |
| PragmaHandler.MemoryLimitPragma | src/planner/pragma_handler.cpp:78-92 | a non-assignment is rejected; an integer is accepted iff it is negative, which means unlimited |
| PragmaHandler.QueryProfiler.constructor | src/planner/pragma_handler.cpp:46-77 | the profiler starts disabled with no format and no output |
| PragmaHandler.BufferManager.SetLimit | src/planner/pragma_handler.cpp:78-92 | setting a limit stores it |
| PragmaHandler.PragmaHandler.constructor | src/planner/pragma_handler.cpp:21-22 | the handler keeps its profiler and buffer manager |
| PragmaHandler.PragmaHandler.ParseMemoryLimit | src/planner/pragma_handler.cpp:99-148 | the result is the scanner's, and only success sets the limit |
| PragmaHandler.PragmaHandler.HandlePragma | src/planner/pragma_handler.cpp:24-97 | each keyword changes only its own settings as its branch says; errors change nothing |
| TigerDb.WordEndFinds | src/main/tigerdb.cpp:60-66 | a word ends at the first space |
| TigerDb.SplitWordsHaveNoSpace | src/main/tigerdb.cpp:60-66 | no token holds a space |
| TigerDb.JoinSplit | src/main/tigerdb.cpp:60-66 | joining the tokens with spaces gives the input back when it does not end in a space |
| TigerDb.FinalSpaceAddsNoWord | src/main/tigerdb.cpp:60-66 | a final space adds no token |
| TigerDb.SplitJoin | src/main/tigerdb.cpp:60-66 | splitting words joined by spaces gives the words back |
| TigerDb.Tokenize | src/main/tigerdb.cpp:58-66 | the tokenizer loop returns the split of the input |
| TigerDb.ErrorsChangeNothing | src/main/tigerdb.cpp:51-91 | an error leaves both table names unchanged and yields no SQL |
| TigerDb.OnlySetStopsAndChangesTables | src/main/tigerdb.cpp:3-23 | only SET stops the SQL flow or changes a table name, and at most one name changes |
| TigerDb.PassThrough | src/main/tigerdb.cpp:68-71 | CREATE and INSERT in either case pass through unchanged |
| TigerDb.ShowSelectsANamedTable | src/main/tigerdb.cpp:25-49 | SQL is produced iff the statement is SHOW and both names are set, and it selects from one of them |
| TigerDb.SetNamesATable | src/main/tigerdb.cpp:3-23 | `SET T1 AS n` or `SET T2 AS n` sets that name and stops the SQL flow |
| TigerDb.ShowMetaSelectsTableOne | src/main/tigerdb.cpp:40-42 | `SHOW META` selects from the first table |
| TigerDb.ShowOtherSelectsTableTwo | src/main/tigerdb.cpp:37-46 | any other `SHOW` target selects from the second table |
| TigerDb.TigerDB.constructor | src/include/duckdb/main/tigerdb.hpp:23 | both table names start empty |
| TigerDb.TigerDB.ParseTableName | src/main/tigerdb.cpp:3-23 | the names and the result follow the SET rules |
| TigerDb.TigerDB.ParseShow | src/main/tigerdb.cpp:25-49 | the result selects from the table the SHOW target names |
| TigerDb.TigerDB.Parse | src/main/tigerdb.cpp:51-91 | the names and the result follow the statement rules, and the names persist across calls |

## Left out

- The adaptive radix tree itself (index insert, remove and lookup) is not part of this model. A unique index is a multiset of keys that accepts a batch when no key repeats.
- ArtKey.EncodeFloat: finite values give no result. The source converts them numerically rather than reinterpreting their bits, so only zero, the infinities and NaN are modelled.
- ArtKey.EncodeDouble: finite values give no result, for the same reason. The double key at `art_key.cpp:149-155` is not built beyond this encoding.
- ArtKey.FloatKey: its contract states only the key's length. The keys themselves are stated by `ArtKey.FloatKeys`.
- `UpdateInfo::UpdatesForTransaction`, which `FetchUpdateData` (`string_segment.cpp:118-132`) calls, is not part of this model, so neither is `FetchUpdateData`.
- The string segment's own `FetchRow` (`string_segment.cpp:214-282`) depends on version visibility and is not modelled.
- `merge_loop`, which `MergeStringUpdate` and `MergeUpdateInfo` call, is not part of this model. It is modelled as the sorted merge that its uses require.
- Buffer-manager calls are left out: `Pin`, `DestroyBuffer`, and the on-disk overflow read loop at `string_segment.cpp:434-468`. Blocks are byte sequences in a map, and `Allocate` hands out fresh ids.
- Shared and exclusive locks, and `lock_guard` on the segment tree, are left out. Every operation is modelled as sequential.
- Write-ahead-log serialisation is left out. The log is the sequence of logical records written.
- PragmaHandler.PragmaHandler.ParseMemoryLimit: the number is an integer. The cast to `double` and the floating-point product are not modelled, so fractions and exponents are not accepted.
- ChunkCollection is modelled by its observable behaviour: full chunks of 1024 rows plus a last partial chunk.
- DataTable (`Common.DataTable`) is a stand-in for the table's rows, cardinality and shared indexes, with only the operations local storage and commit call.
- The iteration order over the per-table map in `CheckCommit` and `Commit` is a parameter (`order`), because a C++ `unordered_map` order is unspecified.
- TigerDb.TigerDB.Parse: its precondition excludes empty input, where the source reads `tokens[0]` out of bounds (`tigerdb.cpp:68`).
- TigerDb.TigerDB.ParseShow: its precondition excludes a one-token SHOW, where the source reads `t[1]` out of bounds (`tigerdb.cpp:37`).
- LocalStorage.LocalStorage.InitializeStorageScan: its precondition excludes storage without chunks, where the source calls `chunks.back()` on an empty collection. LocalStorage.LocalStorage.InitializeScan has the same precondition. The commit path does not reach them for such a storage, because the corrected `ScanTableStorage` handles it first (see Findings).
- The chunk version information (`ChunkInfo` and its `CommitDelete`) is not part of this model. `CommitState.ChunkVersionInfo` stands in for it with the per-row delete versions of one vector.
- StringSegment.StringSegment.constructor: only the branch that allocates a new block (`block == INVALID_BLOCK`) is modelled. A segment over an existing block, with no vector counted, is loaded from disk, which is not part of this model.
- ColumnData.ColumnData.AppendToSegment: a transient segment's room is one fixed `capacity` per column. In the source it depends on the segment's type, and for a string segment also on the room left in its dictionary.
- PragmaHandler.PragmaHandler.HandlePragma: a parameter is a VARCHAR or an INTEGER. Other types, such as a DOUBLE given to `memory_limit` (where `GetNumericValue()` throws) or to `enable_profiling`, are not modelled.
- LocalStorage.GetChunk: the debug-build check that all ids fall in one chunk is a precondition.
- The segments' own `Scan`, `IndexScan`, `Fetch`, `FetchRow` and `Update`, which `ColumnData` delegates to, are modelled only as the choice of segment and vector.
- ColumnData.ColumnData.IndexScan: does not model the refusal while updates are outstanding. That check lives in the segment's `IndexScan`, which is not part of this model.
- `CleanupUpdate` and the internals of `CreateUpdateInfo` are not part of this model. The undo record is the value `UndoRecord` builds.

## Findings

| source | as written | input that shows it | evidently intended | confidence | as-written member | corrected member |
|---|---|---|---|---|---|---|
| src/storage/local_storage.cpp:248-252 | The commit-time scan treats an empty scanned chunk as the end of the table. | Two chunks, where every row of chunk 0 is deleted and chunk 1 holds rows: chunk 1 is never committed. | Skip fully deleted chunks and continue up to the last chunk. | not executed | LocalStorage.FirstChunkDeletedHidesTheRest | LocalStorage.LocalStorage.ScanTableStorage |
| src/storage/local_storage.cpp:28-33 | `LocalTableStorage::InitializeScan` sets `max_index` to the chunk count minus one and reads `chunks.back()`, even when the collection has no chunks. `Append` creates the storage (lines 100-103) before its index loop can throw, so a storage with no chunks outlives a rejected first append, and `CheckCommit` and `Commit` scan it. | A table with one unique index on column 0. The first append of the transaction holds the rows (1) and (1) and is rejected, and the transaction then commits. | A storage with no chunks scans as empty: nothing to check and nothing to commit. | not executed | LocalStorage.RejectedFirstAppendLeavesNoChunks | LocalStorage.LocalStorage.ScanTableStorage |
| src/storage/local_storage.cpp:118-122 | The append loop inserts the chunk into each local unique index in turn and stops at the first rejection. Keys already inserted into earlier indexes stay. | Unique indexes on columns 0 and 1, both holding the row (1,1). Appending (2,1) is rejected but leaves key 2 in the first index, so a later append of (2,5) is rejected too. | A rejected append leaves every local index unchanged. | not executed | LocalStorage.RejectedChunkLeavesKeysBehind | LocalStorage.LocalStorage.Append |
| src/storage/string_segment.cpp:588 | When a second update in a transaction merges into the undo record, a newly covered row takes its null bit from `base_nullmask[aidx]`. That indexes by the position in the update rather than by the row `id`. | Row 0 of the vector is NULL. A first update sets row 3 to a string, and a second update sets row 5 to a string. Rolling back the second update makes row 5 NULL. | Take the row's own prior bit, `base_nullmask[id]`, so that a rollback restores the mask from before the update. | not executed | StringMerge.AsWrittenRollbackNullsRow | StringMerge.MergedRecordRestoresMask |
