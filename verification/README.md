# Snapdir, modelled and proved

Snapdir stores directory trees as content-addressed objects and text manifests, and keeps a small
catalog of which snapshot was seen where and when. This project models its state-changing core and
proves what that core promises: over every run of the catalog, every tree a mirror prunes, every list
of diff rows, every interleaving of the progress meter.

Run `dafny verify dfyconfig.toml` here to check everything.

## How the model is laid out

| part | modules | what is modelled |
|---|---|---|
| stock | `Options`, `Machine`, `Sorting`, `StringOrder`, `Text`, `Decimal` | 64-bit bounds, stable `sort_by`, ordered iteration of `BTreeMap`s, byte order of strings, `split`, zero-padded decimals |
| time | `CivilDate`, `Timestamps` | the closed-form date conversion and the timestamp format |
| catalog | `Catalog`, `CatalogHistory`, `CatalogHeads`, `CatalogTraces`, `CatalogQueries`, `CatalogReplay`, `CatalogRepeat`, `CatalogLive`, `CatalogClock`, `CatalogWitnesses`, `CatalogStore` | six tables, `save`, `log`, `rebuild`, `clear_location` and the three queries; `CatalogStore.Store` is the mutable object, each method proved equal to its step on `Catalog.Tables` |
| destination tree | `FileTree`, `Mirror`, `Permissions` | a tree in which `remove_dir` needs an empty directory and changing a mode needs every ancestor to be passable; pruning; permission restore |
| diff | `Diff`, `DiffJson`, `DiffLoops` | both unions, both classifiers, the JSON printers of the command line and of the C interface, and the C++ binding's parser, which reads the second; `DiffLoops` has the loops, each proved equal to its function |
| manifest | `ManifestText`, `ManifestDocuments`, `Snapshot` | the line format, its parser, directory checksums and snapshot ids over any hash |
| addresses | `Layout`, `Recover`, `CacheScan`, `CacheReports` | the sharded layout, path normalisation, recovering a key from a symlink target, cache scan, purge and integrity check |
| meter | `MeterModel` | starts and finishes as atomic steps of any number of threads |

Code that computes is a function; code that updates in place or loops is a method (of a class where the
source has an object) proved equal to such a function, and the theorems are about the functions.

## What came out

Several promises hold only under a condition. Each condition is proved exact, in both directions,
and an input that fails it is given in a lemma of its own.

* Timestamps sort as strings up to the end of the year 9999 and no further
  (`Timestamps.TimestampsSortAsStrings`). The documentation states it without a bound.
* A save with a timestamp behind the location's head makes the head name a row that is not the last one
  (`CatalogHistory.SaveKeepsChainIff`, reached in `CatalogWitnesses.OutOfOrderSaveIsReached`). Scannable timestamps that do
  not fall at any one location are enough to keep every location chained (`CatalogTraces.TracesAreChained`).
* Prefix scans end at `"\u{10FFFF}"`, so a timestamp above it is written but never read or cleared
  (`CatalogQueries.RevisionsRefinePlainQuery`, `CatalogHeads.ClearKeepsHeadsIff`, reached in
  `CatalogWitnesses.UnreachableRowIsHidden` and `CatalogWitnesses.ClearStrandsARow`). The catalog's own clock
  never produces one (`CatalogClock.StampsAreScannable`).
* A rebuild is documented to reproduce the live history. It does exactly when rows of equal timestamp
  are in id order and no two neighbouring ids are equal (`CatalogReplay.RebuildReproducesHistory`, failing in
  `CatalogWitnesses.EqualTimestampsAreReordered` and `CatalogWitnesses.EmptyIdsCollapse`).
  The catalog it is rebuilt into need not be chained: a rebuild repairs what out-of-order saves left
  (`CatalogLive.RebuildRepairs`).
  Neighbouring ids can only be equal when both are empty: `save` does not see an empty head as equal to an
  empty id, while `rebuild` does.
* The C++ parser leaves `\u00XX` as it stands and skips empty paths, so the round trip of the C interface's
  JSON fails exactly for empty paths and for control characters other than backspace, tab, newline, form feed and
  return. Read with the command line's JSON, whose printer has no short escape for backspace and form feed, it fails
  for those two as well (`DiffJson.JsonRoundTrip`, `DiffJson.ManglesMeaning`, `DiffJson.RoundTripFails`).
  The order of an object's keys does not matter, as promised: no path can hold the text of a key, for every
  quote in it is escaped (`DiffJson.KeysInSortedRow`). Neither printer is at fault: a decoder as in section 7
  of RFC 8259 reads every path back (`DiffJson.PrinterFollowsTheStandard`).
* A manifest path that ends in a carriage return loses it when it is read back, unless its line is the last
  (`ManifestText.ManifestRoundTrip`, failing in `ManifestText.ReturnIsLost`).
  The text still tells such manifests apart (`Snapshot.DisplayIsInjective`).
* A snapshot id ignores the order of entries exactly when no path has two different entries
  (`Snapshot.SnapshotIdIgnoresOrder`, failing in `Snapshot.TwoEntriesTwoIds`).
* With excludes, the prune can meet a non-empty directory: when a protected entry sits in a directory
  that is not protected. That is the only way it can (`Mirror.PruneMeaning`, reached in
  `Mirror.ProtectedFileBlocksPrune`). Even then nothing it keeps is lost (`Mirror.PruneKeeps`).
* A root hint that normalises to nothing stops the key search before later roots are looked at
  (`Recover.EmptyRootStopsTheSearch`); absolute roots never do (`Recover.AbsoluteRootsNeverStop`), and
  `Recover.TryRootsMeaning` gives the condition for any roots.
* A finish without a start can make the finisher of a real start leave at zero (`MeterModel.StrayCanRobAStart`).
  At rest, exactly as many real finishers have left at zero as stray finishes have taken one off the gauge
  (`MeterModel.QuiescentWithStrays`); even so the gauge is then zero and the done counter exact
  (`MeterModel.QuiescentMeterIsExact`), and it never wraps (`MeterModel.GaugeNeverWraps`).

Where code and comments disagree the code is followed: `depth` gives `./` the depth 0, not 1
(`crates/snapdir-core/src/mirror.rs:112`).

## Model

| member | source | states |
|---|---|---|
| CivilDate.CivilFromDaysIsNthDay | crates/snapdir-catalog/src/lib.rs:178-189 | for every day count the closed form gives a valid Gregorian date, the one reached from 1970-01-01 by that many next-day steps |
| CivilDate.ClosedFormStep | crates/snapdir-catalog/src/lib.rs:178-189 | one more day in the closed form is the next calendar day, leap days and era ends included |
| CivilDate.DatesIncrease | crates/snapdir-catalog/src/lib.rs:178-189 | later days have later dates |
| Timestamps.StringOrderIsTimeOrder | crates/snapdir-catalog/src/lib.rs:172-192 | before the year 10000 a timestamp string is smaller exactly when its instant is earlier |
| Timestamps.StampShows | crates/snapdir-catalog/src/lib.rs:172-192 | a timestamp before the year 10000 has 23 characters with the separators in their places, and its digits are the date that many days after 1970-01-01, the hour, minute and second that add up to the rest of the day, and the millisecond |
| Timestamps.TimestampsSortAsStrings | crates/snapdir-catalog/src/lib.rs:33-35 | earlier instants below a bound sort first as strings if and only if the bound is at most the year 10000 |
| Timestamps.TimestampOrderBreaksInYear10000 | crates/snapdir-catalog/src/lib.rs:191 | the last second of 9999 and the first of 10000 sort the wrong way round |
| Timestamps.TimeOfDayLess | crates/snapdir-catalog/src/lib.rs:174-177 | within a day, string order is the order of seconds and milliseconds |
| Decimal.FieldLess | crates/snapdir-catalog/src/lib.rs:191 | zero-padded fields compare as their numbers, then as what follows them |
| Decimal.PadIsFixed | crates/snapdir-catalog/src/lib.rs:191 | zero-padding a number that fits the width gives exactly its digits in that width |
| Decimal.PadShows | crates/snapdir-catalog/src/lib.rs:191 | a zero-padded number that fits has its width and reads back |
| Decimal.ValueOfShow | crates/snapdir-core/src/manifest.rs:168-176 | reading a printed number gives the number back |
| Catalog.RunsAgree | crates/snapdir-catalog/src/lib.rs:360-439 | after any run of `save`, `log` and `rebuild` with any strings the three history tables hold the same rows, every sequence number is used once and is below the counter |
| Catalog.ApplyAgrees | crates/snapdir-catalog/src/lib.rs:360-439 | every single operation keeps the tables in agreement |
| Catalog.InsertedRows | crates/snapdir-catalog/src/lib.rs:414-439 | `insert_history` adds one row that was not there, under all three keys |
| Catalog.SaveMeaning | crates/snapdir-catalog/src/lib.rs:360-368 | a save adds nothing when the head is that id already, and else exactly one row, at the counter's number and linked to the head before it, and makes it the head; a non-empty id is the head afterwards |
| Catalog.LogMeaning | crates/snapdir-catalog/src/lib.rs:372-396 | a log adds its event at the counter's number and, at the next number and the same timestamp, exactly what a save adds; a non-empty id is the head afterwards |
| Catalog.ClearedRows | crates/snapdir-catalog/src/lib.rs:605-639 | clearing a location removes from all three tables exactly its rows that a prefix scan can reach |
| Catalog.ScanReach | crates/snapdir-catalog/src/lib.rs:472-473 | a prefix scan's bounds enclose exactly the keys of that prefix with a timestamp up to the top string |
| Catalog.Scan | crates/snapdir-catalog/src/lib.rs:504-507 | a range scan yields each key in range once, ascending |
| CatalogHeads.RunsKeepHeads | crates/snapdir-catalog/src/lib.rs:428-429 | after any run with scannable timestamps, in any order, a location has a head exactly when it has rows, and the head is one of them |
| CatalogHeads.ClearKeepsHeadsIff | crates/snapdir-catalog/src/lib.rs:605-639 | clearing keeps heads and rows in step exactly when the scan finds none of the location's rows or all of them |
| CatalogHeads.EventLogIsAppendOnly | crates/snapdir-catalog/src/lib.rs:372-396 | the event log gains one new event per `log`, numbered by the counter, and nothing else ever changes it |
| CatalogHistory.RunsAreChained | crates/snapdir-catalog/src/lib.rs:360-439 | over any run with scannable timestamps in which no inserting save or log is stamped before its location's head, rows of each location form a `previous_id` chain and its head is the last row |
| CatalogTraces.TracesAreInOrder | crates/snapdir-catalog/src/lib.rs:360-396 | a run with scannable timestamps is in order as soon as no save or log is stamped before anything earlier at its own location, rebuilds in between allowed |
| CatalogTraces.TracesAreChained | crates/snapdir-catalog/src/lib.rs:360-439 | so such a run, its timestamps scannable, leaves every location chained, with its head last |
| CatalogTraces.RowsFromOps | crates/snapdir-catalog/src/lib.rs:360-439 | every row of any run was stamped by one of its operations, at the row's own location |
| CatalogHistory.SaveKeepsChainIff | crates/snapdir-catalog/src/lib.rs:360-368 | a save keeps chain and head exactly when it is the no-op or its timestamp is not behind the head's |
| CatalogHistory.InsertAtEnd | crates/snapdir-catalog/src/lib.rs:414-439 | a row no earlier than the last extends the location's history at its end |
| CatalogHistory.InsertOutOfOrder | crates/snapdir-catalog/src/lib.rs:414-439 | a row earlier than the last is not the last one, though the head now names it |
| CatalogHistory.ReplayExtends | crates/snapdir-catalog/src/lib.rs:586-598 | replaying sorted entries continues a location's chain from its head and appends exactly the rows of the entries that change the head |
| CatalogHistory.RebuiltLocation | crates/snapdir-catalog/src/lib.rs:567-599 | wherever a location can be cleared, chained before or not, a rebuild leaves exactly the chain of the sorted entries |
| CatalogHistory.ClearedLocation | crates/snapdir-catalog/src/lib.rs:605-639 | clearing leaves nothing of a location if and only if all its rows are within reach and it has no head without rows |
| CatalogHeads.RunsAreClearable | crates/snapdir-catalog/src/lib.rs:360-439 | after any run with scannable timestamps, in any order, every location can be cleared |
| CatalogHistory.RebuildTouchesOneLocation | crates/snapdir-catalog/src/lib.rs:567-599 | a rebuild leaves every other location's rows and head, and the event log, unchanged |
| CatalogQueries.RevisionsRefinePlainQuery | crates/snapdir-catalog/src/lib.rs:501-519 | the reverse scan behind `revisions` equals a filter of the whole history, newest first, exactly when the location's timestamps are within reach |
| CatalogQueries.AncestorsRefinePlainQuery | crates/snapdir-catalog/src/lib.rs:468-497 | the same for `ancestors`, with and without a location |
| CatalogQueries.LocationScan | crates/snapdir-catalog/src/lib.rs:504-507 | rows of a location prefix scan are the reachable rows of the location in time order |
| CatalogQueries.IdScan | crates/snapdir-catalog/src/lib.rs:471-477 | rows of an id prefix scan are the reachable rows of the id in time order |
| CatalogQueries.LocationsListLastRows | crates/snapdir-catalog/src/lib.rs:446-461 | in a chained catalog `locations` lists, in order and once each, the last row of every location that has rows |
| CatalogQueries.RevisionsLinkUp | crates/snapdir-catalog/src/lib.rs:499-519 | `revisions` of a chained location is a linked list: each previous id is the next entry's id, the last has none, timestamps never rise; with scannable timestamps the index scan returns this list |
| CatalogQueries.RevisionsShowRows | crates/snapdir-catalog/src/lib.rs:508-516 | the entries of `revisions` are the location's rows newest first, each with its row's time, id and location and no previous id where none is recorded |
| CatalogQueries.AncestorsArePredecessors | crates/snapdir-catalog/src/lib.rs:463-497 | `ancestors` of an id are the ids directly before its rows, stamped with the time of the row that follows them; with scannable timestamps the index scan returns these |
| CatalogReplay.RebuildReproducesHistory | crates/snapdir-catalog/src/lib.rs:544-599 | rebuilding, into any catalog where the location can be cleared, from any arrangement of a chained location's pairs reproduces its history if and only if the pairs are in replay order and neighbouring ids differ; with scannable timestamps the scans of all three queries then answer alike, and that of `revisions` differently otherwise |
| CatalogLive.RebuildReproducesLiveRun | crates/snapdir-catalog/src/lib.rs:544-599 | for a location built by saves and logs of non-empty ids at rising scannable timestamps, whatever happened at other locations, a rebuild from any shuffle, into any catalog where the location can be cleared, answers `revisions`, `locations` and located `ancestors` as the live catalog |
| CatalogLive.RebuildRepairs | crates/snapdir-catalog/src/lib.rs:544-599 | in particular into what any prior run with scannable timestamps left, out-of-order saves included |
| CatalogLive.LiveFacts | crates/snapdir-catalog/src/lib.rs:360-396 | such a location is chained, has one row a timestamp and no empty id |
| CatalogReplay.RebuildFromOwnRevisions | crates/snapdir-catalog/src/lib.rs:544-599 | fed its own revisions a rebuild changes no answer under that condition, and changes `revisions` otherwise |
| CatalogReplay.RebuildIgnoresOrder | crates/snapdir-catalog/src/lib.rs:574-580 | the resulting tables depend on the multiset of entries only |
| CatalogRepeat.RebuildIsIdempotent | crates/snapdir-catalog/src/lib.rs:564-599 | for any catalog whose tables agree and any timestamps, rebuilding again from the same view, in any order, changes no answer |
| CatalogRepeat.RebuiltScan | crates/snapdir-catalog/src/lib.rs:567-599 | a prefix scan of a rebuilt location sees the replayed rows within reach and nothing that was there before |
| CatalogRepeat.ScansAnswerAlike | crates/snapdir-catalog/src/lib.rs:446-519 | all three queries follow from what one scan of the location sees and from its head |
| CatalogReplay.RebuildLeaves | crates/snapdir-catalog/src/lib.rs:567-599 | wherever a location can be cleared, what a rebuild leaves is the chain of the sorted entries, whatever rows and head the location had |
| CatalogReplay.SameLinksSameAnswers | crates/snapdir-catalog/src/lib.rs:446-519 | queries about a location depend on times, ids and previous ids alone, not on sequence numbers |
| CatalogClock.RebuildReproducesClockedRun | crates/snapdir-catalog/src/lib.rs:125-132 | end to end: history stamped at one location by a clock that moves forward between its saves, before the year 10000, is reproduced by a rebuild from any shuffle, into any catalog where the location can be cleared |
| CatalogClock.StampsAreScannable | crates/snapdir-catalog/src/lib.rs:172-192 | every formatted timestamp, of any year, is within reach of the scans |
| CatalogClock.ClockedRunsAreLive | crates/snapdir-catalog/src/lib.rs:172-192 | a location stamped by a forward clock has strictly rising stamps |
| CatalogWitnesses.OutOfOrderSaveIsReached | crates/snapdir-catalog/src/lib.rs:360-368 | a second save stamped before the first leaves its row before the first one's while the head names it |
| CatalogWitnesses.UnreachableRowIsHidden | crates/snapdir-catalog/src/lib.rs:501-519 | a row stamped above the scans' end is stored and not shown |
| CatalogWitnesses.ClearStrandsARow | crates/snapdir-catalog/src/lib.rs:605-639 | rebuilding such a location from nothing removes its head and leaves a row |
| CatalogWitnesses.EqualTimestampsAreReordered | crates/snapdir-catalog/src/lib.rs:574-580 | two saves at one timestamp with falling ids are chained, and a rebuild from their own pairs shows something else |
| CatalogWitnesses.EmptyIdsCollapse | crates/snapdir-catalog/src/lib.rs:590-597 | the empty id saved twice is chained, and a rebuild from its own pairs shows something else |
| CatalogStore.Store.Open | crates/snapdir-catalog/src/lib.rs:330-344 | a fresh catalog has six empty tables |
| CatalogStore.Store.HeadOf | crates/snapdir-catalog/src/lib.rs:347-354 | the head's id, none for an untracked location or an empty id |
| CatalogStore.Store.TakeSeq | crates/snapdir-catalog/src/lib.rs:399-410 | hands out the counter and moves it on by one |
| CatalogStore.Store.Insert | crates/snapdir-catalog/src/lib.rs:414-439 | the four table updates amount to one insertion step |
| CatalogStore.Store.SaveAt | crates/snapdir-catalog/src/lib.rs:360-368 | the whole new state is that of a save step |
| CatalogStore.Store.LogAt | crates/snapdir-catalog/src/lib.rs:372-396 | event first, then a save at the same timestamp |
| CatalogStore.Store.Clear | crates/snapdir-catalog/src/lib.rs:605-639 | the removal loop over scanned victims amounts to removing all of them and the head at once |
| CatalogStore.Store.RebuildFrom | crates/snapdir-catalog/src/lib.rs:567-599 | sort, clear and the replay loop with its running head amount to a rebuild step |
| CatalogStore.Store.ListLocations | crates/snapdir-catalog/src/lib.rs:446-461 | the table iteration returns the `locations` answer the theorems speak of |
| CatalogStore.Store.ListRevisions | crates/snapdir-catalog/src/lib.rs:501-519 | the reverse loop returns the `revisions` answer |
| CatalogStore.Store.ListAncestors | crates/snapdir-catalog/src/lib.rs:468-497 | the reverse loop with its two skips returns the `ancestors` answer |
| FileTree.KeyFacts | crates/snapdir-core/src/mirror.rs:109-117 | a key leads back to its path, its depth is the number of path components, only a directory's ends in a slash |
| FileTree.KeyInjective | crates/snapdir-core/src/mirror.rs:77-80 | equal keys are the same path and the same kind |
| FileTree.Tree.SymlinkMetadata | crates/snapdir-cli/src/cli.rs:3382-3387 | tells what is there, or that nothing is |
| FileTree.Tree.RemoveDir | crates/snapdir-cli/src/cli.rs:3388-3391 | succeeds exactly on an existing empty directory and removes only it |
| FileTree.Tree.RemoveFile | crates/snapdir-cli/src/cli.rs:3392-3397 | succeeds exactly on something that is no directory and removes only it |
| Mirror.ExactMirror | crates/snapdir-cli/src/cli.rs:3350-3400 | a destination holding all of a parent-closed manifest is pruned without failure to exactly the manifest's entries, and a second prune deletes nothing |
| Mirror.PruneMeaning | crates/snapdir-cli/src/cli.rs:3374-3400 | the prune succeeds if and only if everything kept sits in kept directories, and then removes exactly the rest |
| Mirror.PruneKeeps | crates/snapdir-cli/src/cli.rs:3374-3400 | succeed or fail, a prune leaves a well-formed tree with everything it keeps still there as what it was; it fails only on a doomed directory that still holds something |
| Mirror.RemoveAllKeeps | crates/snapdir-cli/src/cli.rs:3374-3398 | the same for removing any list of paths in any order |
| Mirror.MirrorWithExcludes | crates/snapdir-core/src/mirror.rs:88-99 | under that condition excludes leave exactly the manifest's and the protected entries, and a second prune deletes nothing |
| Mirror.ProtectedFileBlocksPrune | crates/snapdir-cli/src/cli.rs:3388-3391 | a tree and an exclude that protects a file but not its directory, on which the prune fails |
| Mirror.RemoveAllMeaning | crates/snapdir-cli/src/cli.rs:3374-3398 | a deepest-first loop succeeds exactly when no doomed directory holds a survivor, and then removes exactly the doomed |
| Mirror.OrderedTargets | crates/snapdir-core/src/mirror.rs:101-106 | sorted keys name exactly the doomed paths, deepest first |
| Mirror.PruneOrderMeaning | crates/snapdir-core/src/mirror.rs:90-106 | the deletion list has each key neither in the manifest nor protected exactly once, deeper keys first and keys of one depth in byte order |
| Mirror.PruneSetOfListing | crates/snapdir-core/src/mirror.rs:72-107 | in whatever order the destination was listed, the prune set is the same |
| Mirror.CollectDestEntries | crates/snapdir-cli/src/cli.rs:4199-4226 | the walk appends one entry, with its kind, for everything below a directory and for nothing else |
| Mirror.CollectChild | crates/snapdir-cli/src/cli.rs:4204-4223 | one child adds itself and, if a directory, all that is below it |
| Mirror.DeleteAll | crates/snapdir-cli/src/cli.rs:3374-3398 | the loop leaves the tree, and reports the failure, of removing one target after another |
| Mirror.PruneDest | crates/snapdir-cli/src/cli.rs:3350-3400 | absent destination: nothing; dry run: lists the prune set and changes nothing; else: the tree and failure of the prune |
| Permissions.RestoreMeaning | crates/snapdir-cli/src/cli.rs:4069-4105 | from a passable tree, no path having two different entries, a restore succeeds if and only if every permission string is an octal mode; then every entry has its mode and all else is unchanged |
| Permissions.RestoreOrderSafe | crates/snapdir-cli/src/cli.rs:4076-4086 | files first, then longer paths first, puts every directory after all that is in it |
| Permissions.ApplyAllMeaning | crates/snapdir-api/src/lib.rs:1736-1758 | in any such order no mode change is ever blocked by an earlier one |
| Permissions.AncestorKeyShorter | crates/snapdir-cli/src/cli.rs:4082 | an ancestor's manifest path has fewer bytes |
| Permissions.ThreeDigitMode | crates/snapdir-cli/src/cli.rs:4092-4105 | three octal digits give the mode they spell; it is passable to its owner exactly when the first digit is odd |
| Permissions.ModeMeaning | crates/snapdir-cli/src/cli.rs:4100-4101 | a permission string is a mode exactly when, less one leading plus, it is a non-empty string of the digits 0 to 7 with a value below 2^32, and then the mode is each digit times its power of eight |
| Permissions.ModeTree.SetPermissions | crates/snapdir-cli/src/cli.rs:4101-4104 | succeeds exactly when the path exists below passable directories, and changes only its mode |
| Permissions.ModeTree.ApplyEntry | crates/snapdir-api/src/lib.rs:1762-1784 | one entry: a bad mode or an unreachable path is reported and changes nothing |
| Permissions.ModeTree.ApplyBatch | crates/snapdir-cli/src/cli.rs:4073-4087 | a loop over entries that stops at the first failure |
| Permissions.ModeTree.RestorePermissions | crates/snapdir-cli/src/cli.rs:4069-4088 | files in manifest order, then directories longest first, with the modes and the failure that order gives |
| Diff.DiffIsAPatch | crates/snapdir-cli/src/diff.rs:162-219 | performing the rows on the from side gives the to side's content on every path that is not directories only, and leaves those alone |
| Diff.ClassifyMeaning | crates/snapdir-cli/src/diff.rs:162-219 | rows are sorted by path without repetition, and a row is there exactly when its path gets that status |
| Diff.RowMeaning | crates/snapdir-cli/src/diff.rs:176-217 | when each of the four rows is there, by presence, type and content on the two sides |
| Diff.EmptyDiffMeansSame | crates/snapdir-cli/src/diff.rs:162-219 | no rows exactly when the sides agree on every path that is not directories only |
| Diff.AllShowsEveryPath | crates/snapdir-cli/src/diff.rs:210-218 | with unchanged rows every path that is not directories only has a row; without, exactly the changes remain |
| Diff.SwappedSides | crates/snapdir-cli/src/diff.rs:198-212 | swapping the sides swaps added and deleted and keeps the rest |
| Diff.UnionSucceedsIffAgreeing | crates/snapdir-cli/src/diff.rs:126-154 | under the error policy a union succeeds exactly when entries sharing a path agree, and then represents all of them |
| Diff.UnionErrorIsFirstConflict | crates/snapdir-cli/src/diff.rs:137-142 | the reported path is that of the first entry that disagrees with one before it |
| Diff.UnionLastWins | crates/snapdir-cli/src/diff.rs:143-149 | under last-wins each path carries the content of its last entry |
| Diff.SameContentMeaning | crates/snapdir-cli/src/diff.rs:95-113 | two entries are the same when type and permissions are, and for files checksum and size too |
| Diff.UnionsAgree | crates/snapdir-api/src/lib.rs:1836-1887 | the fingerprint union fails where and as the entry union does, and else shows it |
| Diff.ImplementationsAgree | crates/snapdir-api/src/lib.rs:1836-1953 | on the same manifests, policy and flag both implementations give the same rows or the same conflict |
| DiffLoops.UnionSide | crates/snapdir-cli/src/diff.rs:126-154 | the nested loops over manifests compute the union of the concatenated entries |
| DiffLoops.UnionPrintSide | crates/snapdir-api/src/lib.rs:1836-1887 | the same for the fingerprint union |
| DiffLoops.ClassifySides | crates/snapdir-cli/src/diff.rs:162-219 | the loop over all paths with its two skips computes the classification |
| DiffLoops.DiffSync | crates/snapdir-api/src/lib.rs:1890-1953 | the second implementation's loop computes its own rows |
| DiffLoops.PrintRows | crates/snapdir-cli/src/diff.rs:241-255 | the printing loop writes the array the round trip is about |
| DiffLoops.EscapePath | crates/snapdir-cli/src/diff.rs:260-276 | the escaping loop |
| DiffLoops.FindStringEnd | bindings/cpp/include/snapdir.hpp:390-401 | the index loop finds the closing quote |
| DiffLoops.UnescapeText | bindings/cpp/include/snapdir.hpp:362-384 | the index loop decodes a string body |
| DiffLoops.FindObjectEnd | bindings/cpp/include/snapdir.hpp:416-438 | the depth loop finds the closing brace, strings skipped |
| DiffLoops.ReadObject | bindings/cpp/include/snapdir.hpp:440-478 | status and path of one object, nothing for an unknown status or an empty path |
| DiffLoops.ParseRows | bindings/cpp/include/snapdir.hpp:408-482 | the outer loop returns the rows of all objects in order |
| DiffJson.JsonRoundTrip | bindings/cpp/include/snapdir.hpp:408-482 | for the JSON of either printer, parsing printed rows returns them if and only if every path is non-empty and free of control characters without a short escape |
| DiffJson.ManglesMeaning | crates/snapdir-cli/src/diff.rs:260-276 | those control characters are all but newline, return and tab for the command line's printer, and all but these, backspace and form feed for the C interface's |
| DiffJson.RoundTripFails | bindings/cpp/include/snapdir.hpp:362-384 | a path of one control character comes back as its six-character escape, and a row with an empty path not at all |
| DiffJson.KeysInSortedRow | bindings/cpp/include/snapdir.hpp:403-407 | in the C interface's rows, path first, both keys are found where they belong, whatever the path holds |
| DiffJson.ParseOfRender | crates/snapdir-ffi/src/lib.rs:1655-1665 | for any rows at all and either printer: what the parser makes of the printed text, lost rows and mangled characters included |
| DiffJson.PrinterFollowsTheStandard | crates/snapdir-cli/src/diff.rs:260-276 | a decoder as in section 7 of RFC 8259 reads every path back from either printer |
| DiffJson.UnescapeEscape | bindings/cpp/include/snapdir.hpp:362-384 | unescaping an escaped path changes exactly the control characters without a short escape |
| DiffJson.DecoderFollowsTheStandard | bindings/cpp/include/snapdir.hpp:356-384 | whatever section 7 of RFC 8259 reads without a `\u` escape, the decoder reads alike, the escaped slash included |
| DiffJson.ScanEscaped | bindings/cpp/include/snapdir.hpp:390-401 | the end scan runs over an escaped path to the quote that closes it |
| DiffJson.CloseOfRow | bindings/cpp/include/snapdir.hpp:416-438 | the brace search ends at the row's own brace, in either key order, whatever braces and quotes the path holds |
| DiffJson.StringsClose | bindings/cpp/include/snapdir.hpp:421-437 | for an object of any number of escaped strings, the brace search passes over all of them |
| ManifestText.ManifestRoundTrip | crates/snapdir-core/src/manifest.rs:221-265 | parsing a displayed manifest gives its path-sorted entries if and only if the fields are clean and no path but the last line's ends in a return |
| ManifestText.ReturnIsLost | crates/snapdir-core/src/manifest.rs:237-246 | two entries, the first with a path that ends in a return, do not come back as they were |
| ManifestText.ParseOwnLine | crates/snapdir-core/src/manifest.rs:128-165 | a printed entry with clean fields parses back, spaces in the path included; an empty path is a malformed line |
| ManifestText.SplitOwnLine | crates/snapdir-core/src/manifest.rs:168-176 | a printed entry with clean fields is cut at its first four spaces into tag, permissions, checksum, decimal size and path |
| ManifestDocuments.FiveFieldLine | crates/snapdir-core/src/manifest.rs:128-165 | any line of five fields: an unknown tag, an empty field or a size that is no 64-bit decimal number is reported in that order, and anything else is read as it stands |
| ManifestDocuments.ShortLine | crates/snapdir-core/src/manifest.rs:128-165 | a line with fewer than four spaces is malformed |
| ManifestDocuments.CommentChangesNothing | crates/snapdir-core/src/manifest.rs:237-246 | a blank line or one that starts with `#`, put between any two lines of any document, changes nothing |
| ManifestDocuments.CommentsChangeNothing | crates/snapdir-core/src/manifest.rs:237-246 | any document reads as it does without all its comments and blank lines |
| ManifestDocuments.CommentedManifestReads | crates/snapdir-core/src/manifest.rs:237-265 | the lines of a clean manifest with comments and blank lines anywhere among them, each line ended, read back as its path-sorted entries, if no path ends in a return |
| ManifestDocuments.FirstErrorOfDocument | crates/snapdir-core/src/manifest.rs:233-246 | a document fails with exactly the error of its first line that is neither blank nor a comment and does not parse |
| ManifestText.ParsedEntriesAreClean | crates/snapdir-core/src/manifest.rs:237-246 | whatever parses has space-free fields, newline-free paths and nothing empty |
| ManifestText.LinesOfJoined | crates/snapdir-core/src/manifest.rs:249-265 | the lines of a displayed manifest are its entries' lines, less a final return on all but the last |
| Snapshot.SnapshotIdIgnoresOrder | crates/snapdir-core/src/merkle.rs:230-239 | for an injective hash and entries with clean fields, all arrangements of the entries have one id if and only if no path has two different entries |
| Snapshot.TwoEntriesTwoIds | crates/snapdir-core/src/merkle.rs:230-239 | two different entries for one path have two ids, by their order |
| Snapshot.SnapshotIdIdentifies | crates/snapdir-core/src/merkle.rs:230-239 | for an injective hash and entries with clean fields, equal ids mean equal sorted entries |
| Snapshot.SnapshotIdMeaning | crates/snapdir-core/src/merkle.rs:230-239 | the id is the hash of the path-sorted lines each ended by a newline, and for no entries of one newline |
| Snapshot.DisplayIgnoresOrder | crates/snapdir-core/src/manifest.rs:249-265 | manifests with the same entries, one a path, display alike |
| Snapshot.DisplayIsInjective | crates/snapdir-core/src/manifest.rs:249-265 | for entries with clean fields, a final return in a path included, equal text means equal sorted entries |
| Snapshot.DirectoryChecksumIsOfTheSet | crates/snapdir-core/src/merkle.rs:190-207 | for an injective hash and checksums of one width two directory checksums are equal exactly when the sets of children's checksums are |
| Snapshot.DirectoryChecksumMeaning | crates/snapdir-core/src/merkle.rs:190-207 | the checksum is the hash of the children's checksums in ascending order, each once, run together |
| Snapshot.Manifest.Push | crates/snapdir-core/src/manifest.rs:211-213 | appends one entry |
| Snapshot.Manifest.SortEntries | crates/snapdir-core/src/manifest.rs:223-226 | stable sort by path |
| Snapshot.Manifest.Render | crates/snapdir-core/src/manifest.rs:249-265 | the display loop, newlines between lines and none at the end |
| Snapshot.Manifest.Read | crates/snapdir-core/src/manifest.rs:237-246 | the parse loop: comments and blank lines skipped, first error ends it and changes nothing |
| Sorting.SortIsStable | crates/snapdir-core/src/manifest.rs:223-226 | the sort keeps the order of entries that tie |
| Sorting.SortSorts | crates/snapdir-core/src/manifest.rs:223-226 | the sort orders |
| Sorting.SortPermutes | crates/snapdir-core/src/manifest.rs:223-226 | the sort keeps the multiset of elements |
| Recover.RecoveryInvertsLayout | crates/snapdir-core/src/recover.rs:94-159 | for an absolute link directory and absolute roots that never climb above `/`, a key comes back exactly when it is 64 lower-case hexadecimal digits, the link does not climb above `/`, and the place it leads to from its own directory is some root's place followed by `.objects` and the key cut after 3, 6 and 9 characters |
| Recover.RecoveryByRoots | crates/snapdir-core/src/recover.rs:94-159 | with absolute roots, any link directory and a resolved target without `..`, a key comes back exactly when the resolved target is some normalised root followed by the key's object path |
| Recover.ResolvedLeads | crates/snapdir-core/src/recover.rs:85-92 | a resolved target leads, from anywhere, where an absolute target leads by itself and a relative one from the link's directory |
| Recover.InsideMeansNoParent | crates/snapdir-core/src/recover.rs:63-81 | an absolute path normalises without `..` exactly when it never climbs above `/` |
| Recover.TryRootsMeaning | crates/snapdir-core/src/recover.rs:117-158 | for any roots: a key comes back exactly when a root files it and no root before that one stops the search |
| Recover.KeyUnderInvertsObjectPath | crates/snapdir-core/src/recover.rs:125-155 | five components give a key exactly when they are that key's object path |
| Recover.OneKeyPerTarget | crates/snapdir-core/src/recover.rs:117-158 | a target names at most one key, so the order of roots cannot change which |
| Recover.EmptyRootStopsTheSearch | crates/snapdir-core/src/recover.rs:118-133 | a root that normalises to nothing hides the roots after it |
| Recover.AbsoluteRootsNeverStop | crates/snapdir-core/src/recover.rs:118-133 | an absolute root never ends the search early |
| Recover.NormalizePreservesMeaning | crates/snapdir-core/src/recover.rs:53-81 | a normalised path leads where the path leads, from any directory of a tree without symlinks |
| Recover.NormalizedIsNormal | crates/snapdir-core/src/recover.rs:63-81 | no `.` is left, and `..` only at the start or after the root |
| Recover.NormalizeIdempotent | crates/snapdir-core/src/recover.rs:63-81 | normalising again changes nothing, and a path is unchanged exactly when it is normal |
| Recover.LexicallyNormalize | crates/snapdir-core/src/recover.rs:63-81 | the push-and-pop loop computes the normal form |
| Recover.RecoverObjectKey | crates/snapdir-core/src/recover.rs:112-159 | the loop over roots with its early exits computes the recovered key |
| CacheScan.VerifyCacheMeaning | crates/snapdir-cli/src/cli.rs:2165-2210 | `verify-cache` passes if and only if every cached manifest passes its integrity check and every object no manifest needs is sound |
| CacheScan.CleanMeansNoneCorrupt | crates/snapdir-core/src/cache.rs:217-258 | a scan is clean exactly when no object is corrupt |
| CacheReports.ReportMeaning | crates/snapdir-core/src/cache.rs:217-258 | a report counts the objects scanned and lists, sorted and once for each, the promised checksums of exactly the corrupt ones; a purge names the same |
| CacheReports.CorruptPathsAre | crates/snapdir-core/src/cache.rs:241-245 | the corrupt objects are those whose bytes do not hash to the checksum their path spells, each once |
| CacheScan.PurgeLeavesTheSound | crates/snapdir-core/src/cache.rs:233-249 | a purge leaves exactly the sound objects, unchanged, and the next scan is clean |
| CacheScan.CheckMeaning | crates/snapdir-core/src/cache.rs:144-176 | a manifest check passes exactly when each entry does, and an error is some entry's |
| CacheReports.FirstErrorMeaning | crates/snapdir-core/src/cache.rs:144-176 | an error is that of the first entry that does not pass: its checksum if the object is absent, else its checksum and the hash of the bytes |
| CacheScan.NoIntegrityErrorAfterPurge | crates/snapdir-core/src/cache.rs:144-176 | after a purge a manifest check can only report a missing object |
| CacheScan.FiledPromisesChecksum | crates/snapdir-core/src/cache.rs:296-303 | the path an object is filed under spells its checksum |
| CacheScan.MissingEverywhereMeaning | crates/snapdir-cli/src/cli.rs:2217-2240 | the merged map has exactly the checksums some manifest needs and the cache lacks |
| CacheReports.MissingPathIsFirst | crates/snapdir-cli/src/cli.rs:2227-2239 | each missing object is reported with the path of the first entry, over the manifests in order, that lacks it |
| CacheScan.NothingMissing | crates/snapdir-cli/src/cli.rs:3432-3444 | nothing is reported exactly when every file entry's object is present |
| CacheScan.Cache.VerifyCache | crates/snapdir-core/src/cache.rs:217-258 | the scan loop reports and, when purging, removes exactly the corrupt objects |
| CacheScan.Cache.CheckManifestIntegrity | crates/snapdir-core/src/cache.rs:144-176 | the loop returns the first absent or corrupt object |
| CacheScan.Cache.ListMissing | crates/snapdir-cli/src/cli.rs:3432-3444 | the missing objects of one manifest, in order |
| CacheScan.Cache.MergeMissing | crates/snapdir-cli/src/cli.rs:2235-2237 | first path wins for each checksum |
| CacheScan.Cache.AllMissing | crates/snapdir-cli/src/cli.rs:2217-2240 | the loop over manifests |
| CacheScan.Cache.RunVerifyCache | crates/snapdir-cli/src/cli.rs:2165-2210 | passes exactly as the theorem says, whether or not it purges; a dry run never purges |
| MeterModel.NoFinisherLeavesAtZero | crates/snapdir-core/src/progress.rs:135-157 | while no stray finish has taken anything off, so always when every finish follows its own start, in every interleaving and with any spurious failures: no started call has seen or left at zero and the gauge is the number of starts not yet taken back |
| MeterModel.QuiescentMeterIsExact | crates/snapdir-core/src/progress.rs:135-157 | when all have finished, strays included, the gauge is zero and the done counter is the number of finishes |
| MeterModel.GaugeNeverWraps | crates/snapdir-core/src/progress.rs:142-157 | with stray finishes too, the gauge is the starts less the decrements and the done counter is exact |
| MeterModel.QuiescentWithStrays | crates/snapdir-core/src/progress.rs:142-157 | at rest as many started calls have left at zero as strays have taken one off; so some started call left at zero if and only if some stray took one off |
| MeterModel.RunsKeepAccounts | crates/snapdir-core/src/progress.rs:135-157 | in every reachable state the gauge and the decrementing strays together equal the open starts and those that left at zero, and no more started calls have seen zero than strays have decremented |
| MeterModel.StrayCanRobAStart | crates/snapdir-core/src/progress.rs:142-157 | an interleaving in which a stray finish makes a real finisher leave at zero |
| MeterModel.StepKeepsBalance | crates/snapdir-core/src/progress.rs:135-157 | every atomic step keeps the gauge at starts less decrements and the done counter at the completed finishes, unwrapped |
| MeterModel.StepKeepsAccounts | crates/snapdir-core/src/progress.rs:135-157 | every atomic step keeps that account |
| MeterModel.FinishesAlone | crates/snapdir-core/src/progress.rs:142-157 | from every state, every unfinished call finishes within three steps of its own when it runs alone without spurious failures |
| MeterModel.AloneIsBounded | crates/snapdir-core/src/progress.rs:142-157 | however it runs alone, a call takes at most three such steps |
| MeterModel.StepMakesProgress | crates/snapdir-core/src/progress.rs:142-157 | each step of a call that is no spurious failure, the reload after a lost exchange included, brings it nearer its end |

## Left out

- The redb engine, its transactions, files and errors, and concurrent callers of one catalog: every public catalog method is one step. The sequence counter is unbounded, while the scans' upper end keeps its 64-bit maximum.
- Clocks are parameters: an operation is given its timestamp. `save` asks its clock only when it inserts, so a given timestamp may go unused.
- CatalogLive.RebuildReproducesLiveRun: the catalog that is rebuilt into must be one where the location can be cleared: its rows within reach of the scans, and no head without rows. Every run with scannable timestamps leaves such a catalog; `CatalogWitnesses.ClearStrandsARow` shows what happens in another. `CatalogRepeat.RebuildIsIdempotent` needs no such thing, but an entry stamped exactly `"\u{10FFFF}"` needs the sequence counter to fit 64 bits, as it does in the program.
- DiffJson.ParseOfRender: of `serde_json` only the text of an object with two string members is modelled: keys in order, since the build does not preserve insertion order, and its escapes.
- `all_records`, the JSON lines of catalog records and `FixedClock`: easy members.
- Paths and texts are sequences of code points. UTF-8 byte order is code-point order, and every character the C++ parser looks for is ASCII, so its byte loops and these agree. Names that are not UTF-8, and their lossy conversion, are not modelled.
- Excludes are any predicate on keys; how a pattern is matched is not modelled.
- Mirror.PruneDest: keys are relative to the destination; an absolute path in a manifest, races with other processes and I/O errors other than a non-empty directory are not modelled.
- Permissions.RestoreMeaning: entries must describe the tree, as after a checkout; a missing target shows as a failure in `Permissions.ModeTree.ApplyEntry`. Following symlinks, absolute manifest paths, ownership, and mode bits the system masks are not modelled.
- Pruning below directories that a restore has made read-only: deletion and permissions are separate models.
- The relative and absolute path rendering of manifests, the walk that makes them, and their size totals.
- Hash functions are arbitrary, and injective only where a lemma says so.
- Recover.RecoverObjectKey: paths are lists of components; Windows prefixes are not modelled.
- CacheScan.FiledPromisesChecksum: a checksum's four pieces are path components as they stand, which holds for hexadecimal checksums; pieces that are empty or hold a slash are not modelled.
- CacheScan.Cache.RunVerifyCache: covers all cached manifests; the run for a single `--id`, `check_snapshot_integrity` for an id without a manifest, and `flush_cache` are not modelled.
- MeterModel.GaugeNeverWraps: assumes fewer than 2^64 calls in all. `object_started` and `object_finished` are given as interleaved atomic steps, not as methods, for the reason that one thread's run says nothing of the others. Memory orderings are not modelled: each counter is one atomic cell. The meter's other counters are independent sums.
- The porcelain diff printer, the C++ manifest parser, network stores, transfer, compression, the terminal progress display, command-line parsing, language bindings and benchmarks.
