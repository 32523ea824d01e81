# Verified models of CQLite

Dafny models of the parts of CQLite in which a mistake is silent: reconciliation and
compaction, the write path and its log, the CLI's writable session and script
splitter, and the automation scripts that keep issues, ledgers and fixtures.  Code
that changes things step by step is modelled as methods and classes and proved
against a specification function; the laws are proved about that function.

`dafny verify dfyconfig.toml` checks everything.

| files | models |
|---|---|
| `Script*.dfy` | the CQL script splitter |
| `Merge*.dfy`, `Range*.dfy`, `Compaction.dfy`, `Reordering.dfy`, `Purging.dfy` | cell reconciliation, range-tombstone coalescing, and what a compaction does to reads |
| `Wal.dfy`, `Engine*.dfy`, `Recovery.dfy`, `Session*.dfy` | the write-ahead log's bytes, the engine above it, what a crash leaves, and the CLI session |
| `Tracker*.dfy` | the parity-failure issue tracker: its body text, one issue's protocol, the store, and fingerprints |
| `Ledger*.dfy`, `Retro*.dfy` | the delivery ledger: validator, loader, recorder, tally |
| `Varint.dfy` | two's-complement encoding in the fixture generators |
| `Barrier.dfy`, `Percentile.dfy` | the read-while-write bench |
| `History.dfy` | the performance-history summary |
| `Sorting.dfy`, `Prelude.dfy` | shared definitions |

Faults are parameters: each call that can fail takes its outcome as an argument, and the
theorems hold for every argument. For a write these are a refusal at admission, an append
that breaks off after any number of bytes of its frame, a failed sync and a failed insert;
for a flush a failed SSTable, a failed directory sync, and a truncation that fails before
or after the log is zeroed; for an issue each call refused, or carried out unheard. A
crash leaves any prefix of the log that holds what was synced.

## Where the code departs from its promise

Each of these is proved by the members named.

- The preview of an unterminated statement slices 50 bytes and panics inside a
  multi-byte character (`ScriptPreview.PanicsExactly`).
- A block comment is replaced by nothing and can glue two dashes into a comment
  (`ScriptRoundTrip.BlockCommentCounterexample`, `ScriptRoundTrip.PrintParseExactly`).
- Two different live cells that share the top timestamp of a key are resolved by input
  order, and reads depend on the order exactly when one of them could be shown
  (`Compaction.OrderExactly`, `Reordering.ReorderExactly`).
- The purge settings of a merge are derived from the SSTables on disk when it starts. A
  write with an older timestamp, in the memtable then or flushed while the merge is paused,
  comes back when the deletion that covers it is purged (`Purging.FullCompactionResurrects`);
  reads are unchanged exactly when no such cell is exposed (`Purging.LateExactly`,
  `Purging.LateRowDeletionExactly`).
- An append that breaks off part-way (a payload that does not fit the 4096-byte buffer is
  written straight to the file, and the disk fills) leaves part of a frame in the log, and
  nothing stops the next write from being acknowledged behind it, where replay never reads
  it (`Recovery.TornAppendLosesWrite`). Everything acknowledged is restored exactly when
  this has not happened since the log was last emptied (`Recovery.RestoredExactly`).
- A mutation whose partition key cannot be computed is rejected only after it is
  logged, and then keeps the engine from opening until the log is truncated
  (`Recovery.RejectedWriteBlocksRecovery`).
- Clearing a resolved marker undoes setting it only on bodies that end in one newline
  (`TrackerText.ClearUndoesSetExactly`, `TrackerText.SetSetExactly`); the first refresh
  of the latest-failure section drops the blank line below it (`TrackerBody.RefreshText`).
- A refused edit on the failure path leaves the issue stamped as resolved, and the next
  green run says nothing (`TrackerProtocol.LostRearm`; counted exactly by
  `TrackerProtocol.CommentsExactly`).
- A filing run creates two issues for one marker exactly when two of its digests share
  twelve digits and no issue is open for them (`TrackerRuns.CollisionExactly`), and two
  runs that overlap do exactly when this holds of their failures taken together
  (`TrackerRuns.RacingRunsExactly`).
- A lane is matched as a substring of the whole body, so a green lane also comments on
  another lane's issues, exactly where its file name occurs in their fields, links, times,
  reproduction text or fixed text (`TrackerBody.LaneReachesExactly`,
  `TrackerBody.LaneCrosstalk`).
- A `|` inside a field lets different failures share a fingerprint, exactly when their
  fields have the same parts between bars (`TrackerFingerprint.BarsCollide`,
  `TrackerFingerprint.PayloadPartsExactly`).
- The ledger loader says it does not crash on malformed records; a list or object as
  issue or pull request ends it with an error that is not reported as a finding
  (`LedgerRuns.LoadCrashesExactly`). The guard against `true` counting as 1 is on `const` and not on
  `enum`, which takes a boolean exactly when its number is listed
  (`LedgerSchema.EnumerationAcceptsBoolean`).

## Assumptions

- The tracker's theorems about whole bodies hold for fields that contain no line break
  and no text `<!-- PARITY-`, links and times without line breaks and `<`, and
  reproduction texts broken only by newlines. Runs follow one another, the open-issue
  list is below its cap, and nobody edits a body by hand or reopens an issue.
- The compaction theorems assume that no two different live cells tie at the top of a key
  (necessary by `Compaction.TransparencyNeedsNoTie`) and that the reader's clock is not
  behind the compaction's. That the purge bound is safe for the SSTables on disk is derived
  from the code that computes it (`Purging.DerivedSafe`), given that an SSTable's statistics
  are not above its timestamps; for cells that arrive elsewhere it is not, as above.
- A second Ctrl-C may cut the session's close short anywhere: the model leaves the state
  that any outcome of its flush leaves. What was acknowledged is the same.
- Decoding a serialised mutation gives it back. The checksum may be any function: no
  theorem about the log assumes that it detects anything.

## Model

| member | source | states |
|---|---|---|
| `Script.ParseScript` | cqlite-cli/src/script_executor.rs:150-259 | On every input the four-state loop returns what the token grammar `Parse` says: strings kept verbatim, line comments read as their newline, block comments as nothing, `;` outside them cutting, pieces trimmed and blank ones dropped, and the three errors and the panic exactly where the grammar has them |
| `ScriptLaws.LexAppend` | cqlite-cli/src/script_executor.rs:160-236 | No lookahead crosses a boundary at which the first script is sealed: its tokens are followed by the tokens of the second |
| `ScriptLaws.Composition` | cqlite-cli/src/script_executor.rs:160-256 | If `a` parses and does not stop in a line comment, parsing `a + b` gives the statements of `a` followed by the outcome of `b`, error for error |
| `ScriptLaws.CompositionInComment` | cqlite-cli/src/script_executor.rs:166-178 | If `a` stops in a line comment, what is appended counts only from after its first newline |
| `ScriptLaws.CompositionExactly` | cqlite-cli/src/script_executor.rs:160-256 | Composition holds for every continuation if and only if `a` does not stop in a line comment |
| `ScriptRoundTrip.RoundTrip` | cqlite-cli/src/script_executor.rs:150-259 | Clean statements printed with `;` parse back to themselves |
| `ScriptRoundTrip.StatementsClean` | cqlite-cli/src/script_executor.rs:150-259 | A script without block comments that parses yields only clean statements |
| `ScriptRoundTrip.ReparseIdempotent` | cqlite-cli/src/script_executor.rs:150-259 | Parse, print, parse is parse on scripts without block comments |
| `ScriptRoundTrip.BlockCommentCounterexample` | cqlite-cli/src/script_executor.rs:180-190 | With a block comment it is not: two dashes it held apart become a line comment |
| `ScriptRoundTrip.PrintParseExactly` | cqlite-cli/src/script_executor.rs:150-259 | A list of statements survives printing and parsing if and only if every one is clean |
| `ScriptPreview.AsciiNeverPanics` | cqlite-cli/src/script_executor.rs:248-256 | An ASCII script never panics |
| `ScriptPreview.PreviewPanics` | cqlite-cli/src/script_executor.rs:250-254 | 49 ASCII characters, a two-byte one and one more, unterminated, make the byte slice at 50 panic |
| `ScriptPreview.PanicsExactly` | cqlite-cli/src/script_executor.rs:250-254 | Parsing panics if and only if a complete script leaves more than 50 bytes unterminated and no prefix of them has exactly 50 |
| `ScriptFacts.TrimExactly` | cqlite-cli/src/script_executor.rs:222 | Trimming takes whitespace from both ends and leaves a text that neither begins nor ends with any |
| `ScriptFacts.TrimUnique` | cqlite-cli/src/script_executor.rs:222 | It is the only text that can be left |
| `ScriptFacts.WhitespaceFacts` | cqlite-cli/src/script_executor.rs:222 | Which ASCII characters count as whitespace, and which beyond them |
| `ScriptFacts.Utf8Exactly` | cqlite-cli/src/script_executor.rs:250-254 | The byte widths of section 3 of RFC 3629, which decide where a slice at byte 50 falls |
| `ScriptFacts.QuotedKept` | cqlite-cli/src/script_executor.rs:200-218 | Any value between quotes, its quotes doubled, is one statement word for word, whatever it contains |
| `ScriptFacts.QuotedEnds` | cqlite-cli/src/script_executor.rs:206-212 | A string ends at the quote that closes its value and at no doubled one |
| `ScriptFacts.StringIsQuoted` | cqlite-cli/src/script_executor.rs:206-212 | Whatever is read as a string is some value with its quotes doubled |
| `ScriptFacts.OrdinaryStatement` | cqlite-cli/src/script_executor.rs:220-233 | Text without quotes, terminators and comment signs, and a terminator, is one statement without the whitespace around it |
| `ScriptFacts.LineCommentIsNewline` | cqlite-cli/src/script_executor.rs:160-178 | Anywhere outside strings and comments, a line comment can be replaced by its newline |
| `ScriptFacts.BlockCommentIsNothing` | cqlite-cli/src/script_executor.rs:180-197 | At the start of a script a block comment without a nested opener ends at its first closer and stands for nothing |
| `ScriptFacts.OpenerTakesStar` | cqlite-cli/src/script_executor.rs:180-190 | Inside a block comment an opener takes its star along, so `/*/*/` is not closed |
| `ScriptFacts.OpenFails` | cqlite-cli/src/script_executor.rs:236-244 | A string or a block comment that is not closed fails the script with its own error, whatever came before |
| `ScriptFacts.ResidueFails` | cqlite-cli/src/script_executor.rs:246-256 | After the last terminator only whitespace may follow; any other text fails the script |
| `Merge.ReconcileState.FoldRowDeletions` | cqlite-core/src/storage/write_engine/merge/reconcile.rs:144-206 | Collects the newest row deletion and every complex deletion of a cluster of rows |
| `Merge.ReconcileState.ResolveCellWinners` | cqlite-core/src/storage/write_engine/merge/reconcile.rs:208-258 | Keeps for each cell key the winner by timestamp and then tombstone, in first-seen order |
| `Merge.ReconcileState.ApplyComplexDeletions` | cqlite-core/src/storage/write_engine/merge/reconcile.rs:267-334 | Keeps the newest deletion of each collection column, in first-seen order, and drops the elements it covers |
| `Merge.ReconcileState.ShadowByRowDeletion` | cqlite-core/src/storage/write_engine/merge/reconcile.rs:348-383 | Exactly the winners strictly newer than the row deletion remain |
| `Merge.ReconcileState.FilterDroppedColumns` | cqlite-core/src/storage/write_engine/merge/reconcile.rs:406-428 | Exactly the cells remain whose column is not dropped or that are newer than its drop |
| `Merge.ReconcileState.ExpireTtlCells` | cqlite-core/src/storage/write_engine/merge/reconcile.rs:468-540 | Turns expired cells into tombstones dated at their creation second |
| `Merge.ReconcileState.PurgeGcGrace` | cqlite-core/src/storage/write_engine/merge/reconcile.rs:577-650 | Drops exactly the purgeable cell tombstones, row deletion and markers, and counts each |
| `Merge.ReconcileState.Build` | cqlite-core/src/storage/write_engine/merge/reconcile.rs:669-803 | Loses nothing that survived: the data cells, the row deletion and the markers of the result are exactly those left |
| `Merge.ReconcileCluster` | cqlite-core/src/storage/write_engine/merge/mod.rs:3359-3440 | The seven steps in order compute `Reconcile`, the reference reconciliation of a cluster, for every input |
| `Merge.RetainMember` | cqlite-core/src/storage/write_engine/merge/reconcile.rs:348-428 | A filtering pass keeps a cell if and only if it was there and passes the test |
| `MergeRules.WinnerIsFirst` | cqlite-core/src/storage/write_engine/merge/reconcile.rs:208-258 | The winner of a key is the first of its cells that no other beats: by timestamp, and at one timestamp a tombstone beats a live cell |
| `MergeRules.NewestIsFirst` | cqlite-core/src/storage/write_engine/merge/reconcile.rs:144-206 | The row deletion kept is the first with the greatest timestamp, with its own local deletion time |
| `MergeRules.ActiveIsFirst` | cqlite-core/src/storage/write_engine/merge/reconcile.rs:267-334 | The active marker of a column is the first of its greatest |
| `MergeRules.ExpireExactly` | cqlite-core/src/storage/write_engine/merge/reconcile.rs:468-540 | A cell becomes a tombstone exactly when it is live with a time to live whose expiry, as an unsigned 32-bit number, has come; it is dated at its creation and keeps its key and timestamp |
| `MergeRules.WinnerKeptExactly` | cqlite-core/src/storage/write_engine/merge/reconcile.rs:577-650 | The aged winner of a data key that nothing deletes is kept if and only if it is live, purging is off, its local deletion time is unknown or at least gcBefore modulo 2^32, or its timestamp is not below the overlap bound |
| `MergeRules.OnlyWinnersKept` | cqlite-core/src/storage/write_engine/merge/reconcile.rs:208-258 | Of a data key nothing but the aged winner is kept |
| `MergeRules.RowDeletionKeptExactly` | cqlite-core/src/storage/write_engine/merge/reconcile.rs:577-650 | The newest row deletion is kept if and only if purging is off, its local deletion time is the placeholder 0 or at least gcBefore, or it is not below the bound; no other row deletion is |
| `MergeRules.MarkerKeptExactly` | cqlite-core/src/storage/write_engine/merge/reconcile.rs:577-650 | The same of the active marker of each column |
| `MergeRules.RangeKeptExactly` | cqlite-core/src/storage/write_engine/merge/mod.rs:2399-2425 | The same of each coalesced range newer than the partition deletion |
| `MergeRules.PartitionKeptExactly` | cqlite-core/src/storage/write_engine/merge/mod.rs:2441-2460 | The same of the newest partition deletion |
| `MergeRules.NoPhantomRow` | cqlite-core/src/storage/write_engine/merge/reconcile.rs:669-803 | A row whose data was all dropped or purged is not emitted as a live row; one that never had data keeps its key cells |
| `MergeRules.ShadowKeyCells` | cqlite-core/src/storage/write_engine/merge/mod.rs:2799-2940 | A floor leaves the key cells of a row that has a newer cell, and no cell of any other row |
| `RangeTombstones.CutOrder` | cqlite-core/src/storage/write_engine/merge/mod.rs:2673-2715 | The comparison of range boundaries is a total order, through prefixes, inclusive and exclusive ends and descending columns |
| `RangeTombstones.CoversByCuts` | cqlite-core/src/storage/write_engine/merge/mod.rs:2942-2975 | A range tombstone covers a row if and only if the row lies between its two cuts |
| `RangeTombstones.FloorIsFloor` | cqlite-core/src/storage/write_engine/merge/mod.rs:3033-3110 | The linear floor of a row is the greatest deletion time among the ranges that cover it |
| `RangeTombstones.FloorUnique` | cqlite-core/src/storage/write_engine/merge/mod.rs:3033-3110 | There is only one such floor |
| `RangeTombstones.BestInGap` | cqlite-core/src/storage/write_engine/merge/mod.rs:2622-2637 | The newest range over an elementary gap |
| `RangeTombstones.Coalesce` | cqlite-core/src/storage/write_engine/merge/mod.rs:2589-2660 | The sweep over sorted cuts computes the reference coalescing |
| `RangeTombstones.CoalescedCanonical` | cqlite-core/src/storage/write_engine/merge/mod.rs:2589-2660 | Coalesced ranges are disjoint, ordered, and no two neighbours could have been one |
| `RangeTombstones.CoalescedSameFloor` | cqlite-core/src/storage/write_engine/merge/mod.rs:2589-2660 | Coalescing changes no row's floor |
| `RangeTombstones.FindFloor` | cqlite-core/src/storage/write_engine/merge/mod.rs:3033-3110 | On coalesced ranges the binary search finds the linear floor of every row |
| `RangeOrder.CmpKeyExactly` | cqlite-core/src/storage/write_engine/mutation.rs:566-620 | One key sorts before another if and only if at the first component that differs it is null, or both are present and it is smaller, or greater in a descending column |
| `RangeOrder.CoversInterval` | cqlite-core/src/storage/write_engine/merge/mod.rs:2942-2975 | A range over one column covers the integers between its ends, inclusive or exclusive as they say, whichever way the column is sorted |
| `RangeOrder.CoversExactly` | cqlite-core/src/storage/write_engine/merge/mod.rs:2942-2975 | For keys of any length: the row, cut to the length of each bound, is not before the start and not past the end |
| `RangeOrder.BestExactly` | cqlite-core/src/storage/write_engine/merge/mod.rs:2622-2637 | The range over a gap has the newest deletion of those that span it, and of the equally new the latest local deletion time |
| `RangeOrder.CoalescedNewest` | cqlite-core/src/storage/write_engine/merge/mod.rs:2589-2660 | A coalesced range carries, over every row it covers, the newest input deletion that covers the row and the latest local deletion time of the equally new |
| `Compaction.MergedCell` | cqlite-core/src/storage/write_engine/merge/mod.rs:2247-2480 | A merge emits a cell if and only if it is the aged winner of its key, nothing in the inputs deletes it, its column is not dropped and it is not purgeable |
| `Compaction.ShadowMaybeHolds` | cqlite-core/src/storage/write_engine/merge/mod.rs:2799-2940 | Shadowing by a floor keeps exactly the cells, row deletion and markers above it |
| `Compaction.ReadIsShown` | cqlite-flight/src/producer.rs:994-1062 | Merging on read shows the winner of a key unless it is deleted, dropped, a tombstone or expired |
| `Compaction.DeletionsAccounted` | cqlite-core/src/storage/write_engine/merge/mod.rs:2247-2480 | A cell deleted by the inputs of a merge is deleted by its output, or is older than the purge bound |
| `Compaction.OrderIrrelevant` | cqlite-core/src/storage/write_engine/merge/mod.rs:2247-2480 | Reads do not depend on the order of the inputs where no two different live cells tie at the top of the key |
| `Compaction.OrderExactly` | cqlite-core/src/storage/write_engine/reconcile_rules.rs:70-86 | For every view: all arrangements of the same cells and deletions read the same if and only if no two different live cells, one of which could be shown, share the top rank of the key |
| `Compaction.PairOrderExactly` | cqlite-core/src/storage/write_engine/reconcile_rules.rs:70-86 | Its instance for two tables of one readable cell each: the two orders agree if and only if equal timestamps mean equal cells |
| `Reordering.ReorderExactly` | cqlite-core/src/storage/write_engine/reconcile_rules.rs:70-86 | The same over the permutations of the versions alone, each version holding at most one cell per key |
| `Compaction.NothingLost` | cqlite-core/src/storage/write_engine/merge/mod.rs:2247-2480 | Without a tie, what a reader saw before a compaction it sees afterwards, whatever the purge settings |
| `Compaction.NothingResurrected` | cqlite-core/src/storage/write_engine/merge/mod.rs:2247-2480 | Without a tie, what a reader sees after a compaction it saw before, unless the compaction stopped hiding it |
| `Compaction.CompactionTransparent` | cqlite-core/src/storage/write_engine/merge/mod.rs:2247-2480 | With safe settings and without a tie, compacting any subset of the SSTables leaves every read of every data column unchanged, at every later time and in every order |
| `Compaction.TransparentExactly` | cqlite-core/src/storage/write_engine/merge/mod.rs:2247-2480 | For any settings: without a tie, a read is unchanged if and only if the compaction does not expose the cell that the outside would show, one that its inputs hid and its output does not |
| `Compaction.TransparencyNeedsNoTie` | cqlite-core/src/storage/write_engine/merge/mod.rs:2247-2480 | With safe settings, all orders before and all orders after read the same if and only if there is no tie |
| `Purging.ComputeMaxPurgeable` | cqlite-core/src/storage/write_engine/merge/mod.rs:924-970 | A bound if and only if there are SSTables outside and the statistics of all can be read, and it is not above any of their minimum timestamps |
| `Purging.DerivedExactly` | cqlite-core/src/storage/write_engine/merge/mod.rs:2219-2246 | Purging is unbounded in a full compaction, off when the statistics of an SSTable left out cannot be read, and otherwise below exactly the least of their minimum timestamps |
| `Purging.DerivedSafe` | cqlite-core/src/storage/write_engine/maintenance.rs:518-600 | The settings derived when a merge starts (everything if no SSTable on disk is left out, else below the computed bound, else nothing) never purge what covers a cell of those SSTables |
| `Purging.DerivedTransparent` | cqlite-core/src/storage/write_engine/maintenance.rs:518-600 | If there is nothing but the SSTables on disk at the start, every read of every data column is unchanged |
| `Purging.MergedDeletedExactly` | cqlite-core/src/storage/write_engine/merge/mod.rs:2247-2480 | The output deletes a cell if and only if the greatest row deletion, collection deletion, range or partition deletion of the inputs that covers it is neither purged nor subsumed |
| `Purging.MergedHidesExactly` | cqlite-core/src/storage/write_engine/merge/mod.rs:2247-2480 | The output hides a cell if and only if such a deletion or the aged winner of the key is kept |
| `Purging.LateExactly` | cqlite-core/src/storage/write_engine/maintenance.rs:559-589 | With cells in the memtable or flushed while the merge is paused, a read is unchanged if and only if the late cell on top is not below the bound, or was not hidden, or a deletion or winner that hides it is kept |
| `Purging.LateRowDeletionExactly` | cqlite-core/src/storage/write_engine/maintenance.rs:559-589 | For a row deletion and a late cell: unchanged if and only if the cell is newer than the deletion or the deletion is not purged |
| `Purging.FullCompactionResurrects` | cqlite-core/src/storage/write_engine/maintenance.rs:559-589 | A full compaction purges a row deletion that covers a cell in the memtable, and the cell comes back |
| `Compaction.PurgeNeedsBound` | cqlite-core/src/storage/write_engine/merge/mod.rs:2237-2246 | A row deletion purged while it covers a cell outside the compaction brings the cell back |
| `Engine.WriteEngine.WriteIntoMemtable` | cqlite-core/src/storage/write_engine/mod.rs:853-890 | An acknowledged write is in the memtable and its frame is synced at the end of the log; a refused one leaves the memtable alone, and the log as its fault says |
| `Engine.WriteEngine.FlushInternal` | cqlite-core/src/storage/write_engine/mod.rs:1214-1340 | A flush that succeeds leaves an empty memtable and its content in an SSTable; one that fails has done the same or changed nothing |
| `Engine.WriteEngine.CloseEngine` | cqlite-core/src/storage/write_engine/mod.rs:1378-1430 | A failed flush leaves the engine open |
| `Engine.WriteEngine.Execute` | cqlite-core/src/storage/write_engine/mod.rs:1130-1155 | Writes and flushes in turn, stopping at the first failure |
| `Engine.WriteSound` | cqlite-core/src/storage/write_engine/mod.rs:853-890 | A write, however it fails, keeps the invariant: everything acknowledged is in an SSTable, or in the memtable with its frame synced in the log |
| `Engine.FlushSound` | cqlite-core/src/storage/write_engine/durability.rs:288-350 | So does a flush, however it fails, and a successful one empties the memtable |
| `Engine.ExecuteSound` | cqlite-core/src/storage/write_engine/mod.rs:1130-1155 | A statement is acknowledged only when all its mutations are covered |
| `Engine.CloseSound` | cqlite-core/src/storage/write_engine/mod.rs:1378-1430 | Closing keeps the invariant |
| `EngineOutcomes.WriteSucceedsExactly` | cqlite-core/src/storage/write_engine/mod.rs:853-890 | A write is acknowledged if and only if the engine is open, its log takes appends, the mutation has a key, no counter and a length the log accepts, and no step fails |
| `EngineOutcomes.FlushOutcomes` | cqlite-core/src/storage/write_engine/mod.rs:1214-1340 | The outcome of a flush for every fault: without one it publishes, empties the log and succeeds; before publication a failure changes nothing; after it only a log that was not zeroed cleanly is an error |
| `EngineOutcomes.CloseOutcomes` | cqlite-core/src/storage/write_engine/mod.rs:1378-1430 | Closing succeeds if and only if the flush does, only then is the engine closed, and a closed engine refuses every write and statement |
| `EngineOutcomes.StatementSucceeds` | cqlite-core/src/storage/write_engine/mod.rs:1130-1155 | A statement without a fault succeeds and the engine holds each of its mutations |
| `EngineOutcomes.ExecuteHolds` | cqlite-core/src/storage/write_engine/mod.rs:1130-1155 | Whatever fails, a statement loses nothing that the engine held |
| `Recovery.AckRestoredExactly` | cqlite-core/src/storage/write_engine/wal.rs:1213-1290 | After a crash anywhere past the synced bytes, an acknowledged write is read back at its place if and only if the log was whole when it was acknowledged |
| `Recovery.RestoredExactly` | cqlite-core/src/storage/write_engine/mod.rs:520-700 | Everything acknowledged is in an SSTable or read back if and only if no write since the log was last emptied was acknowledged behind a torn frame |
| `Recovery.ReopenSound` | cqlite-core/src/storage/write_engine/mod.rs:520-700 | Then reopening keeps the invariant for everything acknowledged |
| `Recovery.WriteTearsExactly` | cqlite-core/src/storage/write_engine/wal.rs:1385-1397 | A write tears a whole log if and only if its append breaks off inside its frame |
| `Recovery.ReopenUntorn` | cqlite-core/src/storage/write_engine/mod.rs:590-690 | Reopening always leaves a whole log |
| `Recovery.TornAppendLosesWrite` | cqlite-core/src/storage/write_engine/wal.rs:1385-1397 | A large append breaks off, the next write is acknowledged behind it, and reopening replays only what stood before |
| `Recovery.RejectedWriteBlocksRecovery` | cqlite-core/src/storage/write_engine/mod.rs:853-890 | On a whole log, a write whose key cannot be computed is rejected after it was logged: the log reopens if and only if it did before and the key was computable |
| `Session.RunWritableInteractive` | cqlite-cli/src/main.rs:1113-1205 | The event loop is the event-by-event `Run` |
| `Session.SessionDurable` | cqlite-cli/src/main.rs:1113-1205 | Over every event sequence and every fault: exit code 0 means every acknowledged statement is in an SSTable and the memtable is empty; after any other ending and a crash, everything acknowledged is restored if and only if none was acknowledged behind a torn frame, which holds when no append breaks off |
| `Session.LivesDurable` | cqlite-cli/src/main.rs:1113-1205 | Through any number of sessions, crashes and reopenings in which no append breaks off, everything ever acknowledged is kept |
| `Session.OneShotFlushed` | cqlite-cli/src/main.rs:509-603 | A one-shot invocation that succeeds with `--flush` has flushed all its writes, a deferred DML `--execute` included |
| `SessionOutcomes.AckedExactly` | cqlite-cli/src/main.rs:1113-1205 | A session has acknowledged exactly the mutations of the statements it reached and executed without an error |
| `SessionOutcomes.CleanSession` | cqlite-cli/src/main.rs:1113-1205 | A session of fault-free statements that ends with its input exits with code 0, closed, with every statement acknowledged and in an SSTable |
| `SessionOutcomes.OtherEvents` | cqlite-cli/src/main.rs:1113-1205 | Blank lines and lines that do not parse change nothing; a failed close, a failed read and a second Ctrl-C end the session with codes 1, 1 and 130 |
| `SessionOutcomes.OneShotWritesExactly` | cqlite-cli/src/main.rs:509-603 | A one-shot invocation that succeeds has written every `--mutation`, every mutation of a DML `--execute`, and of the mutations file exactly the lines whose write succeeded |
| `SessionOutcomes.WriteEachExactly` | cqlite-cli/src/main.rs:525-533 | A failing line of the mutations file does not stop the lines after it |
| `SessionOutcomes.OneShotSucceeds` | cqlite-cli/src/main.rs:509-603 | A writable invocation in which nothing fails succeeds and writes everything it was given; with `--flush` all of it is in an SSTable |
| `SessionOutcomes.ExecuteAloneBuffers` | cqlite-cli/src/main.rs:570-600 | Without `--flush` a DML `--execute` leaves its mutations in the memtable, in order, and publishes nothing |
| `SessionOutcomes.ReadOnlyExactly` | cqlite-cli/src/main.rs:509-603 | Without `--writable` nothing is written, and the invocation fails if and only if some option would write |
| `Wal.ScanValidPrefix` | cqlite-core/src/storage/write_engine/wal.rs:1213-1290 | The scan stops at the end of the longest run of whole, checksummed frames and says why |
| `Wal.Replay` | cqlite-core/src/storage/write_engine/wal.rs:1522-1660 | Replay delivers the decoded entries of that prefix and counts the undecodable ones |
| `EngineOutcomes.CleanExactly` | cqlite-core/src/storage/write_engine/wal.rs:1522-1660 | Replay reports a clean log if and only if the scan did not stop in corruption and every payload decodes |
| `EngineOutcomes.CorruptCounted` | cqlite-core/src/storage/write_engine/wal.rs:1522-1660 | The report counts each payload that does not decode, and one more for a corrupt tail |
| `EngineOutcomes.FrameLayout` | cqlite-core/src/storage/write_engine/wal.rs:1331-1400 | Length and checksum in four bytes each, least significant first, then the payload; up to 16 MiB are accepted |
| `EngineOutcomes.OpenOutcomes` | cqlite-core/src/storage/write_engine/wal.rs:1013-1105 | Opening trims a torn header and syncs; any other file is kept whole, and no more of it is taken to be on disk than was |
| `EngineOutcomes.ResetOutcomes` | cqlite-core/src/storage/write_engine/wal.rs:1126-1190 | A reset cuts exactly the corrupt tail, and without one claims nothing more to be on disk |
| `EngineOutcomes.DecodedAll` | cqlite-core/src/storage/write_engine/wal.rs:1522-1660 | When every payload decodes, replay returns the mutation of each in its place |
| `Wal.ScanSound` | cqlite-core/src/storage/write_engine/wal.rs:1213-1290 | The valid prefix of any file is, byte for byte, the log of the entries read from it, and what follows is rejected for the reason reported |
| `Wal.HeadIsFrame` | cqlite-core/src/storage/write_engine/wal.rs:1213-1290 | An accepted entry is framed exactly as an append frames it |
| `Wal.FrameReadExactly` | cqlite-core/src/storage/write_engine/wal.rs:1213-1290 | Whatever follows it and whatever the checksums are, a frame is read back at its place if and only if what stands before it is whole |
| `Wal.TornFrame` | cqlite-core/src/storage/write_engine/wal.rs:1385-1397 | A frame that breaks off leaves a whole log torn, unless none of its bytes was written, and every earlier entry readable |
| `Wal.HiddenBehindTorn` | cqlite-core/src/storage/write_engine/wal.rs:1255-1272 | A torn frame hides everything behind it that does not make up its missing bytes |
| `Wal.ScanLog` | cqlite-core/src/storage/write_engine/wal.rs:1213-1290 | A log followed by anything that is not a frame reads back as its entries |
| `Wal.ReplayLog` | cqlite-core/src/storage/write_engine/wal.rs:1522-1660 | Replaying an intact log gives its mutations, cleanly |
| `Wal.CrashRecovery` | cqlite-core/src/storage/write_engine/wal.rs:1013-1105 | A log cut at any byte recovers exactly the entries that were whole |
| `Wal.SyncedSurvive` | cqlite-core/src/storage/write_engine/wal.rs:1331-1400 | Entries synced before the cut all survive |
| `Wal.WriteAheadLog.OpenExisting` | cqlite-core/src/storage/write_engine/wal.rs:1013-1105 | A torn header is trimmed; a corrupt tail is kept and blocks appends; every readable entry stays |
| `Wal.WriteAheadLog.ResetToValidPrefix` | cqlite-core/src/storage/write_engine/wal.rs:1126-1190 | The reset keeps every readable entry and unblocks appends |
| `Wal.WriteAheadLog.Append` | cqlite-core/src/storage/write_engine/wal.rs:1331-1400 | An accepted append is read back at its place if and only if the log was whole; a broken one leaves part of a frame and a whole log torn |
| `Wal.WriteAheadLog.TruncateChecked` | cqlite-core/src/storage/write_engine/wal.rs:1702-1780 | A failure before the log is zeroed leaves it intact, one after leaves it empty, and a failed seek poisons it |
| `Wal.ReopenedIsWhole` | cqlite-core/src/storage/write_engine/wal.rs:1013-1190 | Opening and resetting leave exactly the whole part of the file |
| `Wal.AppendReplayable` | cqlite-core/src/storage/write_engine/wal.rs:1331-1400 | An append to a whole log extends what replay reads by that entry |
| `TrackerText.ClearRearmsExactly` | scripts/parity-failure-issue.py:135-152 | Clearing leaves no resolved marker if and only if the marker text stands only at the start of lines |
| `TrackerText.SetMarks` | scripts/parity-failure-issue.py:124-132 | A stamped body reads as resolved |
| `TrackerText.ClearSet` | scripts/parity-failure-issue.py:124-152 | What clearing leaves of a stamped body, for every body broken only by newlines |
| `TrackerText.ClearUndoesSetExactly` | scripts/parity-failure-issue.py:124-152 | Clearing undoes stamping if and only if the body ends in one newline and not two |
| `TrackerText.SetSetExactly` | scripts/parity-failure-issue.py:124-132 | Stamping twice is stamping with the last link if and only if the cleared body is neither empty nor ends in two newlines |
| `TrackerText.RefreshSection` | scripts/parity-failure-issue.py:310-328 | Refreshing rewrites the latest-failure section and keeps what stands around it, but for one blank line |
| `TrackerText.RefreshTwice` | scripts/parity-failure-issue.py:310-328 | On any body that has the section, only the last refresh counts |
| `TrackerBody.NewText` | scripts/parity-failure-issue.py:269-287 | A new issue's body is the document of its failure, line for line |
| `TrackerBody.ResolvedIffStamped` | scripts/parity-failure-issue.py:119-121 | A document reads as resolved if and only if it carries the stamp |
| `TrackerBody.ClearText` | scripts/parity-failure-issue.py:135-152 | Clearing removes the stamp and nothing else |
| `TrackerBody.StampText` | scripts/parity-failure-issue.py:124-132 | Stamping leaves one stamp, the last, and nothing else changed |
| `TrackerBody.RefreshText` | scripts/parity-failure-issue.py:310-328 | Refreshing changes the link, the time and the blank line under them, and nothing else |
| `TrackerBody.ClearRefreshCommute` | scripts/parity-failure-issue.py:340-357 | Clearing and refreshing commute on documents |
| `TrackerBody.FoundIffSameMarker` | scripts/parity-failure-issue.py:249-255 | An issue is found by a fingerprint if and only if their first twelve digits agree |
| `TrackerBody.FoundByTwelveDigits` | scripts/parity-failure-issue.py:96-103 | In characters: the first twelve of the two digests agree |
| `TrackerBody.LaneReachesLine` | scripts/parity-failure-issue.py:579-585 | A lane without newlines reaches an issue if and only if its text lies within one line of the body |
| `TrackerBody.LaneReachesExactly` | scripts/parity-failure-issue.py:579-585 | A lane's file name reaches an issue if and only if it occurs in one of the five fields, the tier, the fingerprint, a link, the time, the reproduction text, the stamp, or the text of every body |
| `TrackerBody.LaneCrosstalk` | scripts/parity-failure-issue.py:536-544 | A green `compaction-parity.yml` reaches the issues of `live-cell-compaction-parity.yml` |
| `TrackerProtocol.RunIsDoc` | scripts/parity-failure-issue.py:340-363 | Every body reachable by failures and green runs is the document of the same failure: marker, scenario, workflow and reproduction kept, at most one stamp |
| `TrackerProtocol.CommentsExactly` | scripts/parity-failure-issue.py:501-526 | When green runs' calls succeed, resolution comments plus the transitions whose failures were all refused equal the failure-to-green transitions |
| `TrackerProtocol.OnePerTransition` | scripts/parity-failure-issue.py:501-599 | Without faults, one resolution comment per transition, and the stamp is there exactly while green |
| `TrackerProtocol.NoRepeatedResolution` | scripts/parity-failure-issue.py:501-599 | Without faults, a resolution comment is never followed by another before a recurrence |
| `TrackerProtocol.CommentsBounded` | scripts/parity-failure-issue.py:501-526 | Whatever calls fail, a stamped issue has been commented on since the last recorded failure, at most once more than stamps failed; an unstamped one exactly as often as stamps failed |
| `TrackerProtocol.LostRearm` | scripts/parity-failure-issue.py:382-384 | A refused edit on the failure path keeps the stamp, so the next green run is silent |
| `TrackerStore.Lookup` | scripts/parity-failure-issue.py:249-255 | Finds an open issue that holds the marker, or none does |
| `TrackerStore.IssueStore.ApplyUpdate` | scripts/parity-failure-issue.py:381-385 | Edits, then comments, stopping at a failed call |
| `TrackerStore.IssueStore.ResolveOne` | scripts/parity-failure-issue.py:501-526 | Comments, then stamps, stopping at a failed call |
| `TrackerStore.IssueStore.File` | scripts/parity-failure-issue.py:434-438 | Plans each entry against the snapshot and applies the plans in order until a call fails |
| `TrackerStore.IssueStore.Resolve` | scripts/parity-failure-issue.py:571-599 | Resolves the lane's unresolved issues in the order in which they are listed, skips resolved ones, never closes |
| `TrackerStore.IssueStore.ResolveThese` | scripts/parity-failure-issue.py:548-569 | Resolves the open issues of the named failures, planned against the snapshot |
| `TrackerRuns.EveryStoreSound` | scripts/parity-failure-issue.py:388-599 | Over every sequence of filing, resolving a lane, resolving named failures and closing, with any calls failing, there is at most one open issue per fingerprint and each issue is a run of the one-issue protocol |
| `TrackerRuns.StoreOnePerTransition` | scripts/parity-failure-issue.py:501-599 | The comment count of every issue of every fault-free run |
| `TrackerRuns.StoreCommentsBounded` | scripts/parity-failure-issue.py:501-526 | The comment bound for every issue of every run |
| `TrackerRuns.FilingFiles` | scripts/parity-failure-issue.py:434-438 | A filing run that completes leaves for each failure exactly one open issue, unresolved and showing the run |
| `TrackerRuns.FileFromShape` | scripts/parity-failure-issue.py:434-438 | When its calls succeed, a filing run appends one issue per entry unknown to its snapshot and opens or closes nothing else |
| `TrackerRuns.CollisionExactly` | scripts/parity-failure-issue.py:96-103 | When its calls succeed, a filing run keeps one open issue per fingerprint if and only if no two of its failures share twelve digits without an open issue for them |
| `TrackerRuns.RacingRunsExactly` | scripts/parity-failure-issue.py:434-438 | Two filing runs of any failures, links and calls that succeed, listing before either creates, keep one open issue per fingerprint if and only if no two of their failures together share twelve digits without an open issue for them |
| `TrackerRuns.RacingSameFailure` | scripts/parity-failure-issue.py:434-438 | For one failure filed by both: if and only if it had an open issue |
| `TrackerRuns.InLaneExactly` | scripts/parity-failure-issue.py:571-590 | Which open issues a green lane reaches, in every reachable store |
| `TrackerReach.GreenRunResolves` | scripts/parity-failure-issue.py:571-599 | A green run whose calls succeed leaves every open issue whose body contains the stripped lane resolved, with one new resolution comment if it was not, and every other issue as it was |
| `TrackerReach.GreenRunSpares` | scripts/parity-failure-issue.py:571-599 | Whichever calls fail, issues of other lanes are untouched, resolved ones keep body and comments, and no issue gets two comments |
| `TrackerReach.ResolveRunResolves` | scripts/parity-failure-issue.py:548-569 | The same of the open issues of explicitly named failures |
| `TrackerReach.LookupUnique` | scripts/parity-failure-issue.py:249-255 | On a sound store the lookup finds the one open issue that carries the marker |
| `TrackerReach.FileRunReaches` | scripts/parity-failure-issue.py:417-438 | A filing run whose calls succeed updates the open issue of each failure that has one, with one recurrence comment, appends one new issue for each that has none, and leaves every other issue as it was |
| `TrackerRuns.CollapsedDistinct` | scripts/parity-failure-issue.py:417-425 | A run's entries are distinct unless two of its digests share twelve digits |
| `TrackerFingerprint.PayloadExactly` | scripts/parity-failure-issue.py:79-93 | Payloads of bar-free failures agree if and only if scenario, workflow, target, component and kind do, each but for case and the whitespace around it |
| `TrackerFingerprint.StripExactly` | scripts/parity-failure-issue.py:79-81 | Stripping takes the whitespace around a field and nothing else |
| `TrackerFingerprint.PayloadPartsExactly` | scripts/parity-failure-issue.py:92-93 | Payloads of any two failures agree if and only if their normalised fields have the same parts between bars, wherever the fields begin |
| `TrackerFingerprint.BarsCollide` | scripts/parity-failure-issue.py:92-93 | A bar inside a field lets two different failures share a payload |
| `TrackerFingerprint.Collapse` | scripts/parity-failure-issue.py:423-425 | The dictionary loop computes `Collapsed` |
| `TrackerFingerprint.CollapsedExactly` | scripts/parity-failure-issue.py:417-425 | One entry per fingerprint, in first-seen order, with the content seen last |
| `TrackerFingerprint.OneEntryPerTuple` | scripts/parity-failure-issue.py:417-437 | With a digest free of collisions, failures that differ in one of the five fields get one entry each, and failures that agree in all five share one |
| `LedgerSchema.ErrorLog.Validate` | scripts/delivery-telemetry.py:90-139 | The recursive walk only appends, and appends exactly the value's violations in order; it terminates on the schema |
| `LedgerSchema.ViolationsExactly` | scripts/delivery-telemetry.py:90-139 | There is no violation if and only if the value conforms: const with the bool guard, enum, type, minimum, pattern, format, items, required, additionalProperties, properties |
| `LedgerReport.ViolationsMean` | scripts/delivery-telemetry.py:90-139 | An error is reported if and only if the value at the end of its path has that problem: which, for each of the nine problems, and below a value of the wrong type nothing more |
| `LedgerReport.TypeOkExactly` | scripts/delivery-telemetry.py:71-87 | Each type name against the kind of value; booleans are no numbers, unknown names accept everything |
| `LedgerReport.EqualExactly` | scripts/delivery-telemetry.py:91-98 | Numbers and booleans are equal by value, strings by their characters, null to itself alone |
| `LedgerReport.ConstantExactly` | scripts/delivery-telemetry.py:91-96 | A numeric constant is met by the equal integer or float and by no boolean |
| `LedgerReport.GetExactly` | scripts/delivery-telemetry.py:124-139 | A name that occurs more than once reads as its last occurrence |
| `LedgerReport.SeverityMean` | scripts/delivery-telemetry.py:142-168 | Half a severity split is reported as unpaired, one that does not add up to the findings as a mismatch, and nothing else is reported of it |
| `LedgerSchema.EnumerationAcceptsBoolean` | scripts/delivery-telemetry.py:91-98 | The bool guard is on `const` alone: a boolean passes an enumeration if and only if its number is listed, and a constant if and only if it is that boolean |
| `LedgerSchema.BooleanListedExactly` | scripts/delivery-telemetry.py:97-98 | An enumeration lists a boolean if and only if it holds a number or boolean equal to 1 or 0 accordingly |
| `LedgerSchema.TrueIsListedAsOne` | scripts/delivery-telemetry.py:91-98 | So `true` passes the enumeration of 1 and fails the constant 1 |
| `Ledger.ValidateRecord` | scripts/delivery-telemetry.py:171-177 | No error if and only if the record conforms and its severity split reconciles |
| `Ledger.LoadLedger` | scripts/delivery-telemetry.py:403-440 | The loop with its dictionary of seen cycles reports, line by line, bad JSON, every violation and the first line of every repeated cycle; an issue or pull request that is a list or an object ends it |
| `LedgerRuns.AcceptedExactly` | scripts/delivery-telemetry.py:403-440 | For any schema: no finding if and only if every line is valid, no cycle repeats and every cycle can be looked up |
| `LedgerReport.FindingsMean` | scripts/delivery-telemetry.py:403-440 | The findings are exactly the defects of the lines: those that do not parse, violations, and repeated cycles with the line of the first record |
| `LedgerReport.ClashExactly` | scripts/delivery-telemetry.py:427-438 | Two lines are about the same cycle exactly when both are objects with equal non-null issues and equal pull requests |
| `LedgerRuns.LoadCrashesExactly` | scripts/delivery-telemetry.py:427-438 | The loader ends with an error if and only if some line is an object whose issue is not null and whose issue or pull request is a list or an object |
| `LedgerRuns.LintExactly` | scripts/delivery-telemetry.py:443-455 | For the record schema: lint passes if and only if every record is valid and no (issue, pr) repeats |
| `LedgerRuns.LedgerFile.RecordCycle` | scripts/delivery-telemetry.py:353-398 | Validate, look for the cycle, append; exit code 0 if and only if appended |
| `LedgerRuns.RecordKeepsClean` | scripts/delivery-telemetry.py:368-398 | Recording without the override keeps a lint-clean ledger lint-clean |
| `LedgerRuns.OverrideExactly` | scripts/delivery-telemetry.py:386-392 | With the override it stays clean if and only if the cycle was new |
| `LedgerRuns.RunsStayAccepted` | scripts/delivery-telemetry.py:353-398 | So does every sequence of recordings |
| `LedgerRuns.RacesReported` | scripts/delivery-telemetry.py:369-396 | However any number of recorders interleave check and append, every line stays valid and lint accepts if and only if no cycle repeats |
| `LedgerRuns.RaceDuplicates` | scripts/delivery-telemetry.py:373-374 | Two that check before either appends both append |
| `Retro.Aggregate` | scripts/delivery-telemetry.py:460-502 | The tally loop sums each record's contribution |
| `Retro.ValidCountable` | scripts/delivery-telemetry.py:463-466 | Every field the tally indexes is present and an integer in a valid record |
| `Retro.FindingsConserved` | scripts/delivery-telemetry.py:484-490 | Recorded findings equal weighted findings plus nits, on valid records |
| `Retro.TotalAppend` | scripts/delivery-telemetry.py:460-502 | The tally is additive over concatenation |
| `Retro.TotalReordered` | scripts/delivery-telemetry.py:460-502 | And does not depend on the order of the records |
| `RetroTotals.PlainTotals` | scripts/delivery-telemetry.py:480-483 | Collisions, rebases and rework are the sums of the fields of these names |
| `RetroTotals.FindingTotals` | scripts/delivery-telemetry.py:484-490 | Findings are the blockers of the records that split them and the undivided findings of the others; nits come from the former alone |
| `RetroTotals.GateTotals` | scripts/delivery-telemetry.py:491-496 | When every record has run its gate, the failed rounds are all gate runs less one for each record that passed |
| `RetroTotals.RankedExactly` | scripts/delivery-telemetry.py:505-514 | A ranking lists each of the five categories with its own total, weight and product, and nothing else |
| `Sorting.NameLeqExactly` | scripts/delivery-telemetry.py:513-513 | Names are ranked in dictionary order: a prefix first, otherwise by the first character that differs |
| `Retro.Rank` | scripts/delivery-telemetry.py:505-514 | Returns every weighted category once, by score downwards and then name |
| `Retro.RankUnique` | scripts/delivery-telemetry.py:512-514 | There is only one such order |
| `Retro.RetroRanking` | scripts/delivery-telemetry.py:537-556 | Ranks if and only if every record is valid, no cycle repeats and there is a record; so it never ranks a tally that counts a cycle twice |
| `Varint.AddOne` | scripts/generate_e2e_phase1.py:139-147 | The in-place carry loop is increment; the carry escapes only from all-ones bytes |
| `Varint.MakeVarint` | scripts/generate_e2e_phase1.py:117-152 | For every integer: bytes that decode to it, with no byte to spare |
| `Varint.MakeDecimal` | scripts/generate_e2e_phase1.py:73-114 | The same of the unscaled integer |
| `Varint.MakeCollectionDecimal` | scripts/generate_e2e_collections.py:50-78 | The same of the second copy |
| `Varint.EncodersAgree` | scripts/generate_e2e_collections.py:47-78 | All three produce the same bytes |
| `Varint.CanonicalShortest` | scripts/generate_e2e_phase1.py:117-152 | No shorter byte string decodes to the integer |
| `Varint.CanonicalUnique` | scripts/generate_e2e_phase1.py:117-152 | No other canonical byte string decodes to it |
| `Varint.NegatedValue` | scripts/generate_e2e_phase1.py:138-147 | Inverting and adding one gives 256^n less the value, and the carry never escapes |
| `Varint.HexBytesValue` | scripts/generate_e2e_phase1.py:122-125 | The padded hexadecimal digits, paired, are the value's bytes, the first of them not zero |
| `Barrier.RunInvariant` | cqlite-core/benches/read_while_write.rs:122-234 | The invariant of every interleaving of any number of writers and readers |
| `Barrier.ScansUnderLoad` | cqlite-core/benches/read_while_write.rs:146-208 | While any scan runs, every writer has ingested and none has left its loop |
| `Barrier.ReadyBounded` | cqlite-core/benches/read_while_write.rs:164-166 | `ready` never exceeds the number of writers |
| `Barrier.EveryWriterCounted` | cqlite-core/benches/read_while_write.rs:225-234 | A finished run has written at least once per writer |
| `Barrier.FinishedScansLoaded` | cqlite-core/benches/read_while_write.rs:122-234 | In a run that finishes, no writer had exited or crashed during any scan |
| `Barrier.CrashNeverReported` | cqlite-core/benches/read_while_write.rs:228-230 | A crashed writer never lets the run report |
| `Barrier.CanFinish` | cqlite-core/benches/read_while_write.rs:175-230 | From every state without a crash or a panic some schedule finishes: the barrier and the joins cannot deadlock |
| `Barrier.NeverStuck` | cqlite-core/benches/read_while_write.rs:175-230 | The same of every reachable state |
| `Percentile.Percentile` | cqlite-core/benches/read_while_write.rs:265-275 | Zero for an empty sample, else the least sample with at least the rank's count of samples not above it; the array is left sorted |
| `Percentile.RankCovers` | cqlite-core/benches/read_while_write.rs:270-273 | Between 0 and 100 the clamped rank is at least ceil(pct*N/100) |
| `Percentile.RankExactly` | cqlite-core/benches/read_while_write.rs:270-273 | The rank is the least k of 1..n with 100 k >= pct n; 1 below and n above the range of percentages |
| `Percentile.PercentileCovers` | cqlite-core/benches/read_while_write.rs:265-275 | At least pct per cent of the samples are not above the percentile, and fewer are not above any smaller sample |
| `Percentile.NearestRankUnique` | cqlite-core/benches/read_while_write.rs:265-275 | The result depends on the sample, not its order |
| `Percentile.TwoPercentiles` | cqlite-core/benches/read_while_write.rs:241-242 | Sorting in an earlier call does not change a later one, and the result grows with the percentage |
| `History.LatestAndPrev` | scripts/profile_report.py:153-165 | Nothing for an empty group; else its last record, and the last before it with another commit |
| `History.SummarizeHistory` | scripts/profile_report.py:168-193 | One row per (bench, metric), in order; each reports the newest record, ties to the later, and the newest of another commit |
| `History.SummaryUnique` | scripts/profile_report.py:175-191 | A row is determined by the ledger and its key |
| `History.DeltaExactly` | scripts/profile_report.py:185-191 | The change is the percentage of the previous value that, added to it, gives the latest; a rise from a positive value is positive; none for a previous value of zero |
| `History.RowRecords` | scripts/profile_report.py:171-186 | A row shows records of the ledger, of one bench and metric, the previous one of another commit |
| `History.ReportOrder` | scripts/profile_report.py:192-193 | Rows are sorted by bench and then by metric |
| `History.OtherGroupsIrrelevant` | scripts/profile_report.py:171-174 | Records of other groups do not affect a row |
| `History.RerunKeepsPrevious` | scripts/profile_report.py:153-165 | Re-running the latest commit with no earlier timestamp replaces the latest record and keeps the previous |
| `History.NewCommitShifts` | scripts/profile_report.py:153-165 | A run of a new commit makes the former latest record the previous one |

## Left out

- The k-way merge's heap, its streaming variant and the routing of entries to rows: the model starts from the entries of one clustering row in source order.
- The emitted and suppressed counters of the merge.
- Compaction.MergedCell: data cells of rows without a stored liveness marker; whether a key-only row stays visible is not stated.
- Compaction.ShadowMaybeHolds: the liveness marker's own test against the floor is not modelled.
- Compaction.ReadIsShown: which cell is shown, not whether a row without live cells is.
- Compaction.CompactionTransparent: data cells; row visibility by the liveness marker is not stated.
- Cell values, types and serialisation: a mutation's encoding and the checksum are parameters of the log model, and a cell's payload is opaque.
- SSTable bytes, indexes, filters, BTI and VInt formats.
- The choice of the next mutation from a parsed statement, and everything about queries and formatting in the CLI.
- The results of the statements that `--file` executes; their effect on the one-shot ordering is modelled.
- A crash is a cut of the log at a byte past the synced ones; reordered sectors, and a synced byte that is lost, are not modelled.
- Which byte counts a broken append can leave: the model allows all of them, and the buffer's size is not part of it.
- `Durability::Disabled`, under which nothing is logged.
- The text of error messages and comments; kinds of errors, links and times are kept.
- `gh`, files, clocks and JSON text: calls are steps that may fail, a ledger line is blank, garbled or a value, and one clock reading serves each contact with an issue.
- A ledger whose last line lacks its newline, onto which the next record would be written.
- SHA-256, lower-casing, regular expressions and RFC 3339 timestamps are parameters.
- The degraded summary parser, dry runs and label creation in the tracker.
- The construction of a ledger record from GitHub fields, and the issue that a retrospective files.
- Floating point: `make_decimal` starts from the unscaled integer, and percentiles, timestamps and deltas are exact.
- Varint.MakeDecimal: starts after the multiplication by ten to the scale.
- Varint.MakeCollectionDecimal: starts after the multiplication by ten to the scale.
- Percentile.Percentile: exact arithmetic in place of 64-bit floats.
- History.SummarizeHistory: values are numbers; a missing or non-numeric value is not modelled.
- Other benches, examples and generators: fixed data and measurement.
