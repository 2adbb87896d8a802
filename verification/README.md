# u-l10n: a verified model

u-l10n keeps the texts of a family of apps. Editors change keys and translations on
master or on copy-on-write branches; a merge request takes a branch through review; a
merge folds the branch's deltas into master and cuts a release whose bundles apps fetch
over the air. Exports write the same texts as Android XML, iOS `.strings` and Flutter
JSON, and a rate limiter stands in front of the API.

The project models that service in Dafny and proves what its design relies on.

* `Schema`, `Statements`, `Service`: the tables as one state, what each SQL statement
  selects or computes, and every service call as a transaction that plans one write or
  the error that rolls it back. `Runs` are arbitrary sequences of calls from an empty
  database.
* `Databases`: the same transactions carried out in place, statement by statement, over
  the tables of a `class Database`; each is proved to do what `Service` plans, and a
  refused one to leave the tables as they were. The merge's metadata UPDATE visits its
  rows in an arbitrary order and checks the unique index after every row.
* `Outcomes`, `SeedOutcomes`: what each call, a seed and an import leave in the rows of the
  tables, in literal terms, refusals included; `Formats` does the same for the three file
  formats, byte by byte.
* `Frames`, `Invariants`, `Approval`, `ReviewMachine`, `Replay`, `ConflictFlags`, `EditGuard`,
  `MergeMeaning`, `MergeGap`, `Commuting`, `BranchViews`, `Bundling`, `Serving`: what all
  runs of these calls keep.
* `AndroidCodec`, `StringsCodec`, `JsonCodec`, `Files`, `ExportedFiles`: the three writers and
  readers, on byte strings, as loops proved against recursive definitions of the
  formats, and their round trips.
* `Limiting`: the token buckets over real time, against a closed form.
* `Seeding`, `SeedRuns`: the guarded upserts, and seed and import runs.
* `Filters`, `AppVersions`: the key browser's WHERE clause and the app-version floor.

Each statement is one atomic update; `now()` is a counter that advances with every
transaction; there is one project. `MergeGap` and `EditGuard` let other transactions'
writes land between the statements of one.

Where the code does not do what its comments or its design say, the model follows the
code, and a lemma pins the difference down:

* An import writes no history (pkg/service/importsvc/import.go:263-268). History replays to
  master at a pair exactly when no import has changed the row since the last history row
  about master there (`HistoryReplaysExactly`); one import is enough to break it
  (`ImportBreaksReplay`).
* An import is said to upsert keys on `lokalise_key_id`, so that it can always be run again
  (pkg/service/importsvc/import.go:84-89). It upserts them on the name, and the unique
  constraint on that id (.db/V1.10__scope_core.sql:59) refuses the insert when a row that no
  longer holds the name still holds the id. `ImportSucceeds` says exactly when an import goes
  through; over all runs a key that was imported once is accepted again exactly while its
  name is active (`ReimportNeedsName`), so a key deleted here or renamed there makes every
  later import fail (`DeletedKeyBlocksImport`, `RenamedKeyBlocksImport`).
* Importing twice changes nothing exactly when the first import failed or no canonical name
  comes with two different descriptions (`ImportIdempotent`); otherwise every run rewrites the
  row (`SharedNameChurns`).
* A deleted translation that is created again starts over at version 1. A branch, or an
  editor, that saw the old version 1 is not warned (`RemovalHidesWrites`,
  `RecreatedRowIsOverwritten`); `ValueFlagExact` says exactly when a value is flagged, and
  `SaveGuardExact` exactly when an accepted save overwrites what its editor was shown.
* A merge that finds a stale approval re-opens the request and then returns an error
  (pkg/service/mergesvc/merge.go:146-152), which rolls the re-opening back with the rest
  (`StaleMergeFails`, `StaleMergeInput`). No run reaches a state where it finds one
  (`NeverStale`).
* A client that sends no version is said to receive only releases without a floor
  (pkg/repository/release.go:253-257); it also receives those with floor 0.0.0
  (`UnnamedVersion`).
* The kill switch is said to report that the newest release is rolled back
  (pkg/repository/release.go:209-211); it reports that some release of the locale is
  (`SwitchedBelowFloor`). `SwitchNamesNewest` says exactly when the newest one is.
* A publish is to refuse floors the serving query cannot cast
  (pkg/service/releasesvc/releasesvc.go:255-265); it accepts components beyond 32 bits
  (`AcceptedFloorCasts`, `TooWideIsAccepted`).
* The key search reads names on master only, so a key renamed on a branch is not found
  there by the name it is shown under (`RenamedIsMissed`), unless that name occurs in what
  the search does read (`ShownNameFinds`).

## Model

| member | source | states |
|---|---|---|
| `Databases.Database.WithTransaction` | pkg/service/keysvc/keysvc.go:427-502 | a service call leaves the tables as one planned write does, or exactly as they were with the planned error; the invariants of `Invariants.Inv` survive it |
| `Databases.Database.MergeBranch` | pkg/service/mergesvc/merge.go:119-342 | the merge transaction, step by step, does what the merge plans: same refusals in the same order, same final tables |
| `Databases.Database.ApplyKeyMeta` | pkg/repository/mergerequest.go:675-725 | whatever order the UPDATE scans in: a unique violation, or all landing rows and no others updated once each, with the number of blocked deltas |
| `Databases.Database.ApplyDeltas` | pkg/service/mergesvc/merge.go:443-464 | the two value statements one after the other: the tables both leave, or the error of the first one that blocks a delta, with the number it blocked |
| `Databases.PutDeltas` | pkg/service/mergesvc/merge.go:363-402 | row by row: exactly the landing values written one version up with their history rows, and the number of blocked ones |
| `Databases.DropDeltas` | pkg/service/mergesvc/merge.go:404-441 | row by row: exactly the landing tombstones' rows removed, with history only for rows that were there |
| `Databases.Database.Undecided` | pkg/service/mergesvc/merge.go:194-226 | the loops collect exactly the conflicts without a stored decision, of both kinds |
| `Databases.Database.CreateRelease` | pkg/repository/release.go:130-188 | one release behind the others, numbered one above the highest, with a bundle for every locale |
| `Databases.Database.InvalidateApprovalIfEdited` | pkg/repository/mergerequest.go:248-281 | re-opens exactly the approvals of the branch that are older than its last edit, and says whether there was one |
| `Databases.Database.SetValue` | pkg/repository/branch.go:346-372 | the delta's base version is master's at first touch and is kept afterwards; the branch is stamped as edited |
| `Databases.Database.RemoveValue` | pkg/repository/branch.go:379-400 | a tombstone, not a blank; base version and hint of an existing delta are kept |
| `Databases.Database.SetKeyMeta` | pkg/repository/branch.go:437-473 | the metadata delta, refused when the branch uses the name for another key |
| `Databases.Database.CreateCell` | pkg/repository/translation.go:273-296 | writes exactly when there is no row, at version 1 |
| `Databases.Database.UpdateWithVersion` | pkg/repository/translation.go:244-270 | writes exactly when the row is at the expected version, one version up |
| `Databases.Database.DeleteCell` | pkg/repository/translation.go:416-434 | removes exactly a row at the expected version, or any row when none is expected |
| `Databases.Database.SetTranslation` | pkg/service/keysvc/keysvc.go:709-825 | the save of one value, on master under its version guard or as a delta |
| `Databases.Database.DeleteTranslation` | pkg/service/keysvc/keysvc.go:836-937 | the removal of one value, on master or as a tombstone |
| `Databases.Database.CreateKey` | pkg/service/keysvc/keysvc.go:409-503 | an active key on master, or a draft with a delta that will activate it |
| `Databases.Database.UpdateKey` | pkg/service/keysvc/keysvc.go:534-618 | a patch of master's row under its guards, or of what the branch holds |
| `Databases.Database.DeleteKey` | pkg/service/keysvc/keysvc.go:623-681 | a soft delete with the errors told apart, or its delta |
| `Databases.Database.CreateBranch` | pkg/repository/branch.go:221-239 | a new branch unless the name is taken |
| `Databases.Database.TransitionBranch` | pkg/service/branchsvc/branchsvc.go:151-193 | close and reopen, never of a merged branch |
| `Databases.Database.CreateRequest` | pkg/service/mrsvc/mrsvc.go:163-209 | an open request on an open branch without a live one |
| `Databases.Database.ReviewRequest` | pkg/service/mrsvc/mrsvc.go:302-374 | the five transitions of the table, the approval time included |
| `Databases.Database.ResolveConflicts` | pkg/service/mrsvc/mrsvc.go:381-482 | all decisions stored, the last of a conflict winning, or none when one decides no conflict |
| `Databases.Database.PublishRelease` | pkg/service/releasesvc/releasesvc.go:138-201 | a release of master's current state |
| `Databases.Database.RollbackRelease` | pkg/repository/release.go:422-449 | withholds the named release; unknown and already withheld are told apart |
| `Databases.Database.UpsertByName` | pkg/repository/key.go:167-230 | folds into the active key of the name without touching an unchanged row's version, or inserts, and is refused exactly when it would insert a remote id some row holds |
| `Databases.UpsertRows` | pkg/repository/translation.go:196-240 | row by row, unchanged rows keep their version, changed ones go one up |
| `Outcomes.UpdatesMaster` | pkg/service/keysvc/keysvc.go:534-618 | which refusal an edit of a key on master gets, in which order: no such key, an outdated version, a taken name |
| `Outcomes.MasterPatchShows` | pkg/repository/key.go:563-604 | field by field, the row reads as patched and one version up; no other row and no other field changes |
| `Outcomes.DeletesOnMaster` | pkg/repository/key.go:606-661 | a deletion marks the row and keeps the rest of it; an outdated version and a deleted or unknown key are told apart |
| `Outcomes.CreatesOnMaster` | pkg/repository/key.go:519-557 | an active row at version 1 that sorts 100 behind the last, exactly when no active key has the name |
| `Outcomes.CreatesOnBranch` | pkg/service/keysvc/keysvc.go:409-503 | a draft on master and an active delta on the branch, exactly when neither an active key nor the branch uses the name |
| `Outcomes.UpdatesOnBranch` | pkg/service/keysvc/keysvc.go:545-587 | refused exactly when the branch uses the patched name for another key; master is left alone |
| `Outcomes.DeletesOnBranch` | pkg/service/keysvc/keysvc.go:640-655 | a delta with what master shows, marked as deleted, at the base version of first touch |
| `Outcomes.NeedsOpenBranch` | pkg/service/keysvc/keysvc.go:964-984 | a branch call is refused for an unknown branch and for one that is not open |
| `Outcomes.SavesOnMaster` | pkg/service/keysvc/keysvc.go:709-808 | which refusal a save gets, in which order; a row at another version is reported with what it holds |
| `Outcomes.SaveIsStored` | pkg/repository/translation.go:244-296 | the row holds the value and hint that were sent, one version up, with one history row; nothing else changes |
| `Outcomes.RemovesOnMaster` | pkg/service/keysvc/keysvc.go:836-937 | a removal with or without a guard, and the history row with a NULL value |
| `Outcomes.SavesOnBranch` | pkg/service/keysvc/keysvc.go:709-760 | a save on a branch takes no guard and needs a known locale and a key that is not deleted |
| `Outcomes.BranchSaveIsStored` | pkg/repository/branch.go:346-372 | value and hint as sent in the delta, at the base version of first touch |
| `Outcomes.RemovesOnBranch` | pkg/service/keysvc/keysvc.go:854-888 | refused exactly when the branch reads nothing there |
| `Outcomes.BranchRemovalIsStored` | pkg/repository/branch.go:379-400 | a tombstone that keeps base and hint |
| `Outcomes.EditsReopen` | pkg/service/keysvc/keysvc.go:940-962 | every write on a branch re-opens exactly the approval of the branch that is older than it |
| `Outcomes.CreatesBranch` | pkg/repository/branch.go:221-239 | an open, empty branch, exactly when the name is free |
| `Outcomes.MovesBranch` | pkg/service/branchsvc/branchsvc.go:151-193 | a close leaves the branch closed and a reopen leaves it open; never from merged |
| `Outcomes.CreatesRequest` | pkg/service/mrsvc/mrsvc.go:163-209 | an open request without decisions, exactly when the branch is open and has none under review |
| `Outcomes.Resolves` | pkg/service/mrsvc/mrsvc.go:381-475 | refused exactly without decisions, for a finished request, or when a decision is about no conflict |
| `Outcomes.ResolvesAsDecided` | pkg/repository/mergerequest.go:515-566 | for every conflict the last decision about it is stored as it was made; other choices, fields and requests stay |
| `Outcomes.MergeAnswers` | pkg/service/mergesvc/merge.go:119-265 | which refusal a merge gets, in which order, with exactly the open conflicts or clashing names |
| `Outcomes.MergeCloses` | pkg/service/mergesvc/merge.go:267-314 | it closes its own request and branch and no other, and cuts one release of its own behind the others |
| `Outcomes.Publishes` | pkg/service/releasesvc/releasesvc.go:138-201 | one release with the floor that was asked for, numbered one above the highest |
| `Outcomes.RollsBack` | pkg/repository/release.go:422-449 | which refusal a rollback gets |
| `Outcomes.RollbackWithholds` | pkg/repository/release.go:422-449 | the release of that number is withheld, and no other |
| `Outcomes.UpsertInserts` | pkg/repository/key.go:167-230 | a row as sent under a free name, refused exactly when another row has the remote id |
| `Outcomes.UpsertFolds` | pkg/repository/key.go:167-185 | description and overrides are replaced only by what is sent, platforms accumulate in order without repetition, one version up exactly if that changes the row |
| `Outcomes.UpsertsCells` | pkg/repository/translation.go:196-240 | every row holds what was sent, one version up exactly if that changes it; other rows stay |
| `Invariants.StepKeepsInv` | pkg/repository/mergerequest.go:132-141 | every call keeps: active names unique, one live request per branch, delta bases not ahead of master, no approval older than its branch's last edit |
| `Invariants.LandedNamesUnique` | pkg/repository/mergerequest.go:606-626 | with no collision reported, any set of landed deltas keeps active names unique |
| `Runs.RunKeepsInv` | pkg/service/keysvc/keysvc.go:940-984 | every reachable state satisfies these invariants |
| `MergeMeaning.MergePreservesMeaning` | pkg/service/mergesvc/merge.go:363-464 | after a merge master reads at every pair what the branch read before (found, value, hint); pairs decided for master and pairs without a delta keep their row; a tombstone leaves no row; a written row is one version up |
| `MergeMeaning.MergePreservesMetadata` | pkg/repository/mergerequest.go:675-725 | the same for key rows, sort index kept |
| `MergeMeaning.BlockedIffUndecided` | pkg/service/mergesvc/merge.go:194-265 | with no write since the check, the writing statements block nothing exactly when every conflict is decided |
| `MergeMeaning.AnyOrderLands` | pkg/repository/mergerequest.go:675-715 | applying the deltas one row at a time in any order meets no unique violation and ends in the same table |
| `MergeMeaning.NoIntermediateClash` | pkg/repository/mergerequest.go:606-626 | no intermediate state has two active keys of one name |
| `MergeMeaning.CheckedMergeCommits` | pkg/service/mergesvc/merge.go:228-314 | a merge whose checks pass commits, in whatever order the rows are visited |
| `MergeMeaning.MergeIsItsCheck` | pkg/service/mergesvc/merge.go:119-342 | a merge commits exactly when its checks pass and otherwise fails with the check's error |
| `MergeGap.NoLostUpdate` | pkg/service/mergesvc/merge.go:363-464 | with any master writes between check and apply, a committed merge overwrote only rows still at their base version or decided 'mine' |
| `MergeGap.RacedMergeFails` | pkg/service/mergesvc/merge.go:239-265 | an undecided row that moved in the gap makes the merge fail |
| `MergeGap.NoGapIsAtomic` | pkg/service/mergesvc/merge.go:363-464 | without gaps the statements add up to the one landing of `Service` |
| `EditGuard.SaveIsGuarded` | pkg/service/keysvc/keysvc.go:762-808 | a save whose read and write are separated by other writes goes through exactly when the row was at the expected version both times |
| `EditGuard.SaveSeesWhatWasShown` | pkg/service/keysvc/keysvc.go:695-706 | over every run, an accepted save or delete finds the very row its editor was shown, if the pair was not removed in between |
| `EditGuard.SaveGuardExact` | pkg/service/keysvc/keysvc.go:695-808 | over every run, no call has changed the row an accepted save or delete finds since it was shown, exactly when none removed it |
| `EditGuard.KeySaveIsGuarded` | pkg/repository/key.go:563-568 | an edit or deletion of a key with another version than the row has is refused and changes nothing |
| `EditGuard.KeySaveSeesWhatWasShown` | pkg/service/keysvc/keysvc.go:588-592 | over every run, an accepted edit or deletion of a key on master finds the very row that was shown at its version, untouched since |
| `EditGuard.RecreatedRowIsOverwritten` | pkg/repository/translation.go:273-276 | removed and created again, a row is overwritten by a save sent for its predecessor |
| `Approval.ApprovedIsMerged` | pkg/repository/mergerequest.go:226-281 | over every run, the deltas a merge lands are those the branch held when the request was approved, and the approval stood throughout |
| `Approval.TouchReopens` | pkg/service/keysvc/keysvc.go:949-958 | an edit re-opens the approval of its branch and leaves every other request and branch as it was |
| `Approval.NeverStale` | pkg/service/mergesvc/merge.go:139-152 | over every run, no approval is older than its branch's last edit, so the check inside the merge finds nothing |
| `Approval.StaleMergeFails` | pkg/service/mergesvc/merge.go:146-152 | from any state, a merge fails with the stale-approval error exactly when its branch has such an approval, and then leaves it standing |
| `Approval.StaleMergeInput` | pkg/service/mergesvc/merge.go:146-152 | a state with such an approval |
| `Replay.HistoryReplaysExactly` | pkg/service/importsvc/import.go:263-268 | over every run, imports included: the last history row about master describes the row exactly when no import has changed it since |
| `Replay.HistoryReplays` | pkg/service/keysvc/keysvc.go:709-937 | over every run without imports, the last history row about master gives its value, hint and version, or says there is no row |
| `Replay.LandingTold` | pkg/service/mergesvc/merge.go:391-438 | at every pair a merge records a history row that describes what it left there, or changes neither history nor master |
| `Replay.ImportBreaksReplay` | pkg/service/importsvc/import.go:263-268 | an import that adds a row breaks the replay |
| `ConflictFlags.MetaFlagExact` | pkg/repository/mergerequest.go:568-582 | over every run, a metadata delta is flagged exactly when a call wrote that key on master since first touch |
| `ConflictFlags.ValueFlagExact` | pkg/repository/mergerequest.go:449-486 | over every run, exactly when a value delta is flagged, removals included |
| `ConflictFlags.ValueFlagWithoutRemoval` | pkg/repository/mergerequest.go:466-486 | without a removal since first touch, flagged exactly when a call wrote the pair |
| `ConflictFlags.RemovalHidesWrites` | pkg/repository/translation.go:416-419 | three calls after which master holds another text and the delta is not flagged |
| `ConflictFlags.DiffAgreesWithMerge` | pkg/repository/branch.go:552-599 | the merge refuses for exactly the rows the branch diff flags and nobody decided |
| `ConflictFlags.CommitCell` | pkg/repository/translation.go:196-276 | whatever a call writes, a master row is kept, put one version up, or removed |
| `Commuting.DisjointMergesCommute` | pkg/service/mergesvc/merge.go:119-342 | approved, conflict-free branches with value deltas on disjoint pairs merge in both orders, to the same keys, translations, versions, histories, requests and branches |
| `Commuting.SecondIsFlagged` | pkg/repository/mergerequest.go:449-486 | of two branches that touched a pair at one version, when exactly the second is flagged after the first landed there |
| `Commuting.SecondNeedsDecision` | pkg/service/mergesvc/merge.go:194-226 | if the first merge changed the pair, the second cannot merge without a decision |
| `ReviewMachine.ReviewMoves` | pkg/service/mrsvc/mrsvc.go:67-81 | for each action exactly the states it may start from and the one it leads to, the approval time included; a reopening needs a branch without another request under review |
| `ReviewMachine.BecameByAction` | pkg/service/mrsvc/mrsvc.go:302-374 | over every run, a request has become rejected, closed, sent back or approved by exactly that action, and merged by a merge |
| `ReviewMachine.StatusMoves` | pkg/service/mrsvc/mrsvc.go:57-81 | a request changes status by a review action as the table has it, by an edit of its branch while approved, or by its merge while approved, and in no other way |
| `ReviewMachine.MergedRequestIsFinal` | pkg/repository/mergerequest.go:292-319 | over every run, a merged request's row never changes again |
| `ReviewMachine.MergedBranchIsFinal` | pkg/repository/branch.go:486-501 | over every run, nor does a merged branch's, its deltas included |
| `ReviewMachine.RunKeepsReleases` | pkg/service/mergesvc/merge.go:274-314 | over every run: one live request per branch, releases numbered 1 to n in creation order, merged requests and merge releases in bijection |
| `ReviewMachine.CommitReleases` | pkg/repository/release.go:130-145 | a write leaves the releases alone, cuts one behind them, or withholds one |
| `BranchViews.SaveReadsBack` | pkg/repository/branch.go:305-335 | a value saved on a branch reads back there, and no other pair changed |
| `BranchViews.RemovalReadsBack` | pkg/service/keysvc/keysvc.go:854-888 | a value removed on a branch, and only that, reads as untranslated there |
| `BranchViews.PatchShows` | pkg/service/keysvc/keysvc.go:545-565 | field by field: what a patch mentions is as it says, the rest is what the branch showed before |
| `BranchViews.BranchesAreIsolated` | pkg/service/keysvc/keysvc.go:387-408 | a call on a branch changes no master row, no other branch and nothing a release would ship; keys it creates are drafts |
| `BranchViews.TouchedPairsHold` | pkg/repository/branch.go:293-335 | what a branch has touched reads the same to it until it writes there itself |
| `Bundling.BundleIsView` | pkg/repository/export.go:37-60 | a bundle maps exactly the names of the active flutter keys to their values, "" when untranslated |
| `Bundling.BundleCountsKeys` | pkg/repository/release.go:165-188 | its key count is the number of active flutter keys |
| `Bundling.ForExport` | pkg/repository/export.go:62-94 | the rows of the query, one per shipped key, in its order |
| `Bundling.MaterialiseBundle` | pkg/repository/release.go:165-188 | the map built from the rows is the bundle and its count |
| `Bundling.EntriesFor` | pkg/service/exportsvc/exportsvc.go:175-198 | every row in include mode; skip mode leaves out untranslated keys, never blank ones |
| `Bundling.EntriesAreKeptRows` | pkg/service/exportsvc/exportsvc.go:175-198 | the entries are exactly the found rows in their order, or all rows in include mode |
| `Bundling.ExportLocale` | pkg/service/exportsvc/exportsvc.go:108-198 | exactly the active keys of the platform that have a value in the locale, or all of them in include mode, by sort index; each with its name, its value or "", and CDATA exactly as its row says |
| `Bundling.ExportedKeys` | pkg/repository/export.go:37-94 | the same of the rows of the query and the entries made of them |
| `Bundling.ExportIsBundle` | pkg/service/exportsvc/exportsvc.go:175-198 | the include-mode entries read as a map are the bundle |
| `Bundling.BundlesFrozen` | pkg/service/mergesvc/merge.go:267-293 | over every run, each release was cut by one call and its bundles have not changed since |
| `Bundling.BundleReads` | pkg/service/releasesvc/releasesvc.go:152-194 | and they are the active-key view of master at that call |
| `ExportedFiles.FileIsBundle` | pkg/service/exportsvc/exportsvc.go:149-198 | the JSON file of an export, written and read back as a map, equals the bundle |
| `Serving.ServableBundle` | pkg/repository/release.go:235-285 | the strings of the newest release the client may receive; else kill switch exactly when the locale has a withheld release |
| `Serving.EligibleExactly` | pkg/repository/release.go:235-256 | a client may receive a release that has its locale, is not withheld, and whose floor is a prefix of the version or lower where they first differ |
| `Serving.FloorOfThree` | pkg/repository/release.go:242-252 | for three components: lower major, or the same and lower minor, or the same and patch not higher |
| `Serving.ServedIsLast` | pkg/repository/release.go:235-256 | over every run, what is served is the last created eligible release |
| `Serving.NeverServedAgain` | pkg/repository/release.go:422-449 | over every run, a rolled-back release is never served again |
| `Serving.ServedDropsAtRollback` | pkg/service/releasesvc/releasesvc.go:204-240 | over every run, a client's served version drops, or serving stops, exactly at the rollback of that version |
| `Serving.NewerClientNewerRelease` | pkg/repository/release.go:242-252 | a newer app version never receives an older release |
| `Serving.UnnamedVersion` | pkg/repository/release.go:253-262 | which releases a client without a version receives |
| `Serving.SwitchNamesNewest` | pkg/repository/release.go:264-281 | over every run, with the kill switch reported, the newest release of the locale is rolled back exactly when behind each of its releases that is not there is one that is |
| `Serving.SwitchedBelowFloor` | pkg/repository/release.go:264-281 | two publishes and a rollback after which the kill switch is reported although the newest release is not rolled back |
| `AppVersions.AcceptedFloorCasts` | pkg/service/releasesvc/releasesvc.go:255-292 | an accepted floor has three components, none negative, and can be cast exactly when each fits 32 bits |
| `AppVersions.TooWideIsAccepted` | pkg/service/releasesvc/releasesvc.go:270-292 | a floor that is accepted and cannot be cast |
| `Formats.VersionsRead` | pkg/service/releasesvc/releasesvc.go:255-292 | three decimal numbers with dots: accepted exactly if each fits 64 bits, castable exactly if each fits 32, and cast to these numbers |
| `Formats.NumbersAre` | pkg/service/releasesvc/releasesvc.go:270-292 | what counts as a number: one digit or more behind one sign or none |
| `Formats.Trims` | pkg/service/releasesvc/releasesvc.go:270-274 | which characters are trimmed |
| `AppVersions.Validate` | pkg/service/releasesvc/releasesvc.go:270-292 | no floor, a floor of three accepted components, or a refusal |
| `AndroidCodec.EscapeBackslashes` | pkg/export/xmlfmt.go:93-121 | the single-pass scan, with its lookahead, writes the byte-by-byte escaping |
| `AndroidCodec.WriteValue` | pkg/export/xmlfmt.go:53-73 | entities everywhere but in inline tags, over the backslash escapes |
| `AndroidCodec.ReplacedIsEntities` | pkg/export/xmlfmt.go:137-150 | the chain of replacements escapes byte by byte, nothing twice |
| `AndroidCodec.Unescape` | pkg/parse/xmlparse.go:188-234 | the loop resolves escapes pairwise, unknown ones kept |
| `AndroidCodec.ResolveNumericCharRefs` | pkg/parse/xmlparse.go:133-179 | the loop resolves exactly the well-formed references to characters |
| `AndroidCodec.Decode` | pkg/parse/xmlparse.go:80-108 | CDATA, plain, or one of three refusals |
| `AndroidCodec.BackslashRoundTrip` | pkg/parse/xmlparse.go:188-234 | unescaping undoes the backslash escapes of every byte string |
| `AndroidCodec.EntityRoundTrip` | pkg/parse/xmlparse.go:110-131 | resolving entities undoes the entity layer of every byte string, inline tags included |
| `AndroidCodec.PlainRoundTrip` | pkg/export/xmlfmt.go:53-150 | decoding the plain encoding of any byte string gives it back with hint plain |
| `AndroidCodec.CdataRoundTrip` | pkg/export/xmlfmt.go:35-43 | the CDATA encoding reads back exactly when the value contains neither marker; otherwise it is refused |
| `Formats.AndroidWrites` | pkg/export/xmlfmt.go:93-121 | newline, tab, apostrophe and quote behind a backslash |
| `Formats.AndroidWritesBackslash` | pkg/export/xmlfmt.go:93-121 | a backslash is doubled unless u and four hexadecimal digits follow |
| `Formats.AndroidMarks` | pkg/export/xmlfmt.go:53-73 | the three entities, and the tags for bold and underlined text |
| `Formats.AndroidReads` | pkg/parse/xmlparse.go:188-234 | what the letter behind a backslash stands for |
| `Formats.AndroidReadsNamed` | pkg/parse/xmlparse.go:110-131 | the five named entities, wherever they stand |
| `Formats.AndroidReadsNumeric` | pkg/parse/xmlparse.go:133-179 | decimal and hexadecimal references to every character |
| `Formats.AndroidReadsWrapped` | pkg/parse/xmlparse.go:80-108 | a value with a marker is read exactly when one pair of markers encloses it |
| `StringsCodec.Write` | pkg/export/stringsfmt.go:26-44 | the file is its statements in order |
| `StringsCodec.WriteEscaped` | pkg/export/stringsfmt.go:49-70 | byte-by-byte escaping, control characters as \U00XX |
| `StringsCodec.SkipInsignificant` | pkg/parse/stringsparse.go:91-112 | past blanks and both kinds of comment, or the unterminated comment |
| `StringsCodec.ScanQuoted` | pkg/parse/stringsparse.go:124-201 | the value up to the closing quote, escapes and surrogate pairs resolved, unknown escapes kept |
| `StringsCodec.Hex4` | pkg/parse/stringsparse.go:203-221 | exactly four hexadecimal digits |
| `StringsCodec.Read` | pkg/parse/stringsparse.go:26-88 | the entries of a well-formed file or the first error; it ends on every input |
| `StringsCodec.RoundTrip` | pkg/export/stringsfmt.go:26-70 | for every list of entries and both line endings, reading the written file gives the entries back, duplicates included |
| `Formats.StringsWrites` | pkg/export/stringsfmt.go:49-70 | what each byte is written as |
| `Formats.StringsReads` | pkg/parse/stringsparse.go:124-221 | what each escape stands for, surrogate pairs and lone halves included |
| `Formats.StringsSkips` | pkg/parse/stringsparse.go:91-112 | blanks and both kinds of comment, closed or not |
| `Formats.RunesRoundTrip` | pkg/parse/stringsparse.go:150-190 | every character is written as its shortest valid UTF-8 sequence and stands for itself |
| `Formats.PairsRoundTrip` | pkg/parse/stringsparse.go:223-240 | the two halves of a character make it up again, and no other two numbers make up anything |
| `JsonCodec.WriteString` | pkg/export/jsonfmt.go:56-105 | the escaping with its lookahead for the two separators |
| `JsonCodec.Write` | pkg/export/jsonfmt.go:35-54 | the object, one member a line, a comma after all but the last |
| `JsonCodec.WrittenClean` | pkg/export/jsonfmt.go:56-105 | for any bytes, the written string has no control character, slash, U+2028 or U+2029 but in escaped form |
| `JsonCodec.Read` | pkg/parse/jsonparse.go:23-84 | the members of one object of strings with nothing behind it |
| `JsonCodec.RoundTrip` | pkg/parse/jsonparse.go:23-84 | for every list of UTF-8 entries, reading the written object gives them back in order |
| `Formats.JsonWrites` | pkg/export/jsonfmt.go:56-105 | what each byte is written as |
| `Formats.JsonWritesAll` | pkg/export/jsonfmt.go:56-105 | the two separators, and everything else byte by byte |
| `Formats.JsonReads` | pkg/parse/jsonparse.go:23-84 | one character of a string, every escape of RFC 8259 included |
| `Limiting.Limiter.Take` | route/ratelimit.go:100-128 | over every run a request is admitted exactly by the closed form over the client's own earlier admissions, pruning included; the announced delay is the least after which an idle client is admitted |
| `Limiting.Limiter.Prune` | route/ratelimit.go:130-138 | exactly the buckets that have refilled to burst are dropped, the others kept as they are, and every client's level stays |
| `Limiting.LevelAdmits` | route/ratelimit.go:103-128 | a bucket holds a token exactly when, from each earlier admission on, admissions are at most burst plus what accrued |
| `Limiting.RetryIsLeast` | route/ratelimit.go:122-125 | the delay is the least whole number of seconds that suffices |
| `Limiting.NoTrace` | route/ratelimit.go:118-128 | a refused request, or another client's, leaves a client's admissions as if it had not been |
| `Limiting.WindowBound` | route/ratelimit.go:118-128 | any stretch of a client's admissions fits burst plus what accrues over it |
| `Seeding.KeysIdempotent` | pkg/repository/key.go:159-185 | from any table, upserting the same keys again changes nothing exactly when the first run was refused or no name was sent with two descriptions |
| `Seeding.DedupeTranslations` | pkg/service/importsvc/import.go:273-294 | overwrites slots in place; one entry per pair |
| `Seeding.DedupedOrder` | pkg/service/importsvc/import.go:273-294 | the pairs in the order of their first occurrences |
| `Seeding.DedupedBatchRuns` | pkg/service/importsvc/import.go:246-261 | the batch statement names no row twice and writes each pair's last value |
| `Seeding.BatchesIdempotent` | pkg/repository/translation.go:196-211 | batches on different pairs, written twice, are written once |
| `SeedRuns.RunSeed` | pkg/service/seed/seed.go:162-256 | the passes of a seed run, loop by loop |
| `SeedRuns.CanonicalOrder` | pkg/service/seed/seed.go:162-180 | keys in the order first seen over all files |
| `SeedRuns.Collapse` | pkg/service/seed/seed.go:219-231 | duplicates collapse to the last value at the first place |
| `SeedRuns.SeedIdempotent` | pkg/service/seed/seed.go:131-259 | from any tables, a second seed run changes no key row and no translation row |
| `SeedOutcomes.SeedKeys` | pkg/service/seed/seed.go:162-213 | every key of the files has its row: folded with the platforms it is seen on, or new, without description and behind all earlier ones |
| `SeedOutcomes.SeenInOrder` | pkg/service/seed/seed.go:162-180 | the order is that of first occurrences |
| `SeedOutcomes.SeedValues` | pkg/service/seed/seed.go:215-256 | the row of a key a locale's file names holds the file's last value for it; every other row is as it was |
| `SeedRuns.RunImport` | pkg/service/importsvc/import.go:168-261 | the import's loops, each translation under the id its key keeps; it fails exactly when one of its upserts is refused |
| `SeedRuns.ImportSucceeds` | pkg/service/importsvc/import.go:188-209 | from any tables, an import succeeds exactly when every named key has an active key of its name, in the table or earlier in the fetch, or an id that no row holds and no row inserted before it brought |
| `SeedRuns.ImportIdempotent` | pkg/service/importsvc/import.go:130-271 | from any tables, a second import changes nothing exactly when the first failed or no canonical name has two descriptions |
| `SeedOutcomes.ImportKeys` | pkg/service/importsvc/import.go:184-209 | with different canonical names every named key is folded into the active key of its name, or inserted under its id in the order of the fetch |
| `SeedOutcomes.ImportValues` | pkg/service/importsvc/import.go:211-261 | every pair holds the last translation the fetch has for it, of keys the export contains, blank or not; every other row is as it was |
| `SeedRuns.DistinctNamesAgree` | pkg/service/importsvc/import.go:184-197 | distinct canonical names meet that condition |
| `SeedRuns.SharedNameChurns` | pkg/service/importsvc/import.go:181-197 | two remote keys with one name and two descriptions make every run rewrite the row, exactly when the first of them is not refused |
| `SeedRuns.RemoteIdStays` | pkg/repository/key.go:563-614 | over every run, a row keeps its remote id whatever is done to it, and no two rows share one |
| `SeedRuns.ReimportNeedsName` | pkg/repository/key.go:159-230 | over every run, once an id is on a row, importing it again is accepted exactly while the name it comes under is active |
| `SeedRuns.DeletedKeyBlocksImport` | pkg/repository/key.go:606-627 | an imported key that is deleted cannot be imported again |
| `SeedRuns.RenamedKeyBlocksImport` | pkg/service/importsvc/import.go:197-209 | nor can one that comes under a new name |
| `Filters.PatternMatchesContaining` | pkg/repository/key.go:511-515 | the escaped needle between percent signs matches exactly the strings that contain the needle |
| `Filters.SearchAgreesWithReads` | pkg/repository/key.go:426-446 | the value search finds a key exactly when some locale of it reads, through the branch, as a matching value |
| `Filters.SearchFinds` | pkg/repository/key.go:418-452 | a whole search: name, description or a value as read through the branch contains the needle |
| `Filters.ListedReads` | pkg/repository/key.go:392-468 | the list: keys active on master or on the branch, in which the needle occurs as the branch reads them, and which do not read as found in the named locale |
| `Filters.ShownNameFinds` | pkg/repository/key.go:418-452 | a key is found by every part of the name it is shown under exactly when that name occurs in master's name, the description or a value |
| `Filters.RenamedIsMissed` | pkg/repository/key.go:418-424 | a key renamed on a branch is not found by its name there |

## Left out

- Locks, snapshots inside one statement, query plans, jsonb text and sha256 fingerprints: each statement is one atomic update and a bundle is its map of strings.
- Projects other than the first, archived locales and locale codes: locales are a fixed list of ids.
- Actors, timestamps other than last edit and approval, merge-request events and titles, audit rows, notes, tags, users and roles, key history: no branch reads them back.
- Length limits and the validation of names, descriptions, platforms and comments: each is settled by reading one branch.
- Ids that a sequence hands out and a rolled-back transaction burns: rows are numbered without gaps.
- The order in which a refused merge lists its conflicts, and the texts of errors: errors carry sets, and those of a parser carry no position.
- The terminal-status early exit of mrsvc.Merge and dry runs: they only skip or roll back what is modelled.
- Concurrent publishes that race for a number: releases are numbered inside one transaction.
- `encoding/xml` documents and `encoding/json` internals: the Android codec covers the text inside a string element, and the JSON reader is written from RFC 8259, with lone surrogates and invalid UTF-8 read as U+FFFD.
- Android resource names, zip paths, the selection of export formats and locales: short pure checks.
- Filters.PatternMatchesContaining: compares bytes under an arbitrary case folding, because the database's folding of multi-byte characters depends on its locale.
- Filters.ListedReads: leaves out platform, tag, deleted-key and paging filters, which only add a conjunct each or widen the list of statuses.
- Limiting.Limiter.Take: real numbers for float64 and a clock that never runs backwards.
- SeedRuns.RunSeed: which keys the Android and iOS trees contain is a parameter; pass 2 only reads files.
- SeedRuns.RunImport: keys arrive fetched, sorted by remote id and under their canonical names, with the presence oracle as a set; a remote locale check and warnings are left out.
- AppVersions.Validate: the stored floor is compared as the three numbers it casts to; a failing cast is stated beside the runs, not inside them.
- Client addresses, ETags, HTTP handlers, S3 uploads, the Lokalise client and Google tokens: I/O around simple checks.
