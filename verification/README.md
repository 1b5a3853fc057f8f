# Valmin: verified models

Valmin is a panel that runs Valheim game servers: it backs their worlds up and restores them, installs
mods, takes world uploads, talks to the servers over RCON, and runs schedules. This project models the
parts of it that have to be right when something goes wrong half way, and proves what they promise.

| files | what they model |
|---|---|
| `WorldSwap`, `SwapDirectory`, `Worlds` | The crash-safe world swap. `WorldSwap` is a transition system over the live tree, `.old`, `.new` and the completion marker, in which the process can die between any two filesystem calls, inside a RemoveAll, and inside recovery, and a new attempt may begin in whatever state that leaves. `SwapDirectory` is the code, call by call; each of its methods is proved to be a run of that system. |
| `Archive`, `ArchiveNames`, `TreeWriter` | The world archive: which paths go in, how names are written and cleaned, and the round trip through extraction and the swap. |
| `SemVer`, `VersionOrder`, `ModVersions`, `ModExpansion`, `ModLookups`, `ModLists`, `StalePins`, `ModRoutes`, `ModReduction` | Version order, on parsed versions and on their texts, and the dependency fixpoint behind a setup code. `ModExpansion` says what the expansion is, `ModLookups` at which version, side and registry it adds a package, and `StalePins` who pins what is returned. `ModLists` is the loops that compute and reduce it. `ModRoutes` reads the expansion of installed rows off the pins, and `ModReduction` says which dependencies the reduced list holds. |
| `ClientExport`, `ClientProfile` | The client export: what the closure is and what its walk keeps, and the worklist that updates its maps in place. |
| `UploadAdmission`, `UploadBudget`, `UploadContents` | Disk reservations of concurrent uploads, the shrinking budget one upload writes under, and what of its parts is then stored. |
| `Retention` | Which archives a prune removes. |
| `SaveCheck`, `SaveFindings`, `SaveWriter`, `ChunkName`, `Bytes` | The check of a 1.0 save, the encoding it is exact for, when each finding is reported, and the printed chunk names. |
| `Rcon` | RCON packets (the Basic Packet Structure of Valve's Source RCON Protocol) and one command exchange. |
| `KeyRecovery` | Resetting stored secrets after the master key is lost, cut anywhere and rerun. |
| `AuditExport`, `AuditCursor` | The keyset-paged audit export while rows are being inserted, and when its cursor is right. |
| `Authorization` | The two readings of a grant. |
| `Schedules`, `ScheduleEdits`, `ScheduleClock` | Schedule edits and the interval check, what an edit and an event of the clock do to each field, and their interleaving. |
| `Text`, `Decimal`, `Optional` | Splitting, joining and ordering strings; printed numbers; an optional value. |

`dafny verify dfyconfig.toml` checks everything. Every lemma carries `{:induction false}`: no proof rests on induction the
verifier finds by itself.

Where code and documentation part, the model follows the code:

- semver.Compare is documented as a comparison, but 1.0.0-01 and 1.0.0-1 are each below the other
  (`SemVer.CompareIsAntisymmetricIff`). higherVersion, which the expansion uses, is a strict order all the
  same, and that is all the expansion needs.
- expandMods keeps what a superseded version pinned, so an added mod may be pinned by no mod that is
  returned. `StalePins.PinnedByNoneIff` says exactly when, and `StalePins.ConsistentPinsAreReturned` gives a
  condition on the catalogue under which it does not happen.
- reduceMods is documented to leave out each dependency that the rest of the list expands to. It does not
  always: two dependencies missing in one round are both listed even if one brings the other
  (`ModReduction.OrphansAreBothListed`). Call rows settled when they meet the pins that reach them: each at or
  above every version of it that pins lead to and no weaker-sided than a row that touches it, its versions from one
  registry and ordered, the higher ones pinning what the lower ones do and no lower. Of settled rows the list
  is exactly the chosen ones and those the chosen ones do not reach, and the promise is kept if and only if
  none of the latter is reached from the rest of them (`ModReduction.PromiseKeptIff`). On any rows, a
  dependency that no catalogue row pins at its own version is listed by right
  (`ModReduction.UnpinnedIsNotDerivable`).
- ErrNoReply is described as a command that was sent. It is also carried by a command too long to frame
  and by a write that failed at its first byte (`Rcon.Conn.ExecuteRCON` says exactly when).
- A name with a backslash is archived as it is and extracted as a path (`Archive.ReproducedIffNoBackslash`).
- A schedule's hold is meant for enabled, waiting rows only. An edit and the clock each write from a copy
  they read earlier, and the exact condition under which a hold is left on another row is
  `ScheduleClock.CommitBreaksHoldIff` and `ScheduleClock.JudgeBreaksHoldIff`; the next tick of an enabled row ends it.
- The key-loss report names what its own run reset. A password sealed by a run that was cut is reported by
  no later run (`KeyRecovery.ReportNamesIff`).
- ParseTime reads any RFC 3339 spelling, but the export compares the texts. A stored time that FormatTime
  would spell otherwise can make the export skip rows (`AuditCursor.RunThatSkips`) or never end
  (`AuditCursor.RunThatNeverEnds`); `AuditCursor.ExportIsExactIff` is the exact condition.
- Recovery is described as leaving exactly one world, and does. It can also leave a marker behind, which is
  harmless (`WorldSwap.MarkedStagingIsComplete`), and it leaves `.new` when all three trees are there. That
  state, and a displaced world without a staging, come about when an attempt begins while `.old` is there:
  a restore discards the last staging but does not recover first (`WorldSwap.AttemptOverOldUnpairs`). Where
  stagers recover first, as the clone does, neither state is reached (`WorldSwap.OrderlyRunsStayPaired`).


## Model

| member | source | states |
|---|---|---|
| `WorldSwap.LiveIsNeverPartial` | internal/backup/restore.go:208-243 | In every state of every run of discard, stage, mark, swap and recovery, cut anywhere and begun again from any state, live is the world owed, short at most of kept entries that wait in `.old`, and holds all of a tree that was whole; while there is no live, the whole world found is in `.old` |
| `WorldSwap.AttemptFindsTheWorldOwed` | internal/instance/control/restore.go:45-50 | The world an attempt finds is the one owed before it: the first one, or a published one made whole |
| `WorldSwap.MarkedStagingIsComplete` | internal/backup/restore.go:180-206 | In every reachable state a staged tree beside the marker is a complete tree that was verified, so no attempt publishes a cut-off staging on an earlier claim |
| `WorldSwap.RecoveryCompletes` | internal/backup/restore.go:273-333 | Recovery run to its end from any reachable state leaves under live exactly the world it owes, never nothing where there was one, and no `.old`; it leaves no `.new` exactly when it did not find all three trees, and a second recovery leaves none in any case |
| `WorldSwap.WorldSurvives` | internal/backup/restore.go:273-287 | Once an instance has a world, every later state of every run can be recovered to one |
| `WorldSwap.EveryScheduleEndsAlike` | internal/backup/restore.go:216-271 | Confluence: after the second rename, every schedule of crashes and recoveries ends in the live tree of an uninterrupted swap, which is the staged tree plus exactly the kept top-level entries of the old one whose names it lacks |
| `WorldSwap.OrderlyRunsStayPaired` | internal/backup/restore.go:299-331 | Where every stager recovers before it discards, a displaced world is always beside its complete staging or its published successor: the branches that put `.old` back never run, and all three trees are never there |
| `WorldSwap.AttemptOverOldUnpairs` | internal/instance/control/restore.go:45-50 | And only there: any run that rests with `.old` can go on, by an attempt that begins there, to a state without the pairing |
| `WorldSwap.CutSwapLeavesOld` | internal/backup/restore.go:219-227 | Any run that rests with a world can go on to rest with `.old`: a swap that stops between its renames |
| `WorldSwap.SecondRecoveryOnlyClearsTheMarker` | internal/backup/restore.go:287-331 | On any disk at all, a second recovery changes nothing but a stale marker if and only if the first did not find all three trees; and exactly when a marker outlives the first |
| `WorldSwap.RunKeepsInv` | internal/backup/restore.go:182-368 | The invariant behind these holds in every state of every run |
| `WorldSwap.StepKeepsInv` | internal/backup/restore.go:182-368 | Every filesystem step, a crash and a partial RemoveAll included, keeps it |
| `SwapDirectory.Directory.MarkStaged` | internal/backup/restore.go:180-187 | Writes the claim that the staged tree is complete, as one step of the run, or changes nothing |
| `SwapDirectory.Directory.DiscardStaged` | internal/backup/restore.go:189-200 | Marker first, tree second; whatever it is cut at, live and `.old` are untouched and the run stays a run of the transition system |
| `SwapDirectory.Directory.RemoveStaged` | internal/backup/restore.go:196-198 | RemoveAll may leave any part of the staged tree when it is cut |
| `SwapDirectory.Directory.SwapKeeping` | internal/backup/restore.go:216-243 | Two renames, clear the marker, carry, remove: uncut, the disk is the swapped one; cut at any call, a state of the run |
| `SwapDirectory.Directory.PublishStaged` | internal/backup/restore.go:225-227 | The rename that publishes needs a staged tree and an empty live name |
| `SwapDirectory.Directory.FinishSwap` | internal/backup/restore.go:225-243 | From the second rename on, the swap and the recovery of a swap leave the same disk |
| `SwapDirectory.Directory.CarryOver` | internal/backup/restore.go:245-271 | The loop over the superseded tree's listing carries exactly what keep selects and live lacks |
| `SwapDirectory.Directory.CarryEntries` | internal/backup/restore.go:258-269 | The loop is the fold of one rename at a time over the listing |
| `SwapDirectory.SweepCarries` | internal/backup/restore.go:258-269 | Renaming entries one by one over a whole listing is carrying all of them at once, and leaves nothing to carry |
| `SwapDirectory.Directory.RemoveSuperseded` | internal/backup/restore.go:239-242 | RemoveAll of `.old`, cut anywhere, keeps the run a run |
| `SwapDirectory.Directory.Extract` | internal/backup/restore.go:49-83 | Extraction writes the staged tree entry by entry; cut, it leaves any part of it, and never a marker |
| `SwapDirectory.Directory.Restore` | internal/instance/control/restore.go:45-101 | One attempt, from whatever the last one left, discard first and abandon on refusal. Where no call fails it finishes exactly when the server is stopped and live and `.old` are not both there, and the disk is then the staged world with the kept entries of the world found; while the server runs, live and `.old` are untouched and the staging goes. Cut anywhere, a world that was there is still recoverable |
| `SwapDirectory.Directory.RecoverSwapKeeping` | internal/backup/restore.go:285-331 | The code's choice among histories leaves the world owed and reports which history it found |
| `SwapDirectory.Directory.Resolve` | internal/backup/restore.go:299-331 | Each branch of recovery leaves what the specification of recovery says, with its own report |
| `SwapDirectory.Directory.DiscardUnfinishedStaging` | internal/backup/restore.go:354-368 | Drops the staging and puts back what was displaced, if anything was |
| `SwapDirectory.ReportIsExact` | internal/backup/restore.go:285-331 | Each of the reports names one state of the three trees and the marker, and live then extends the staging, is what was put back, or is what it was |
| `SwapDirectory.Directory.constructor` | internal/backup/restore.go:19-36 | A disk no restore has touched: the start of a run |
| `Archive.HeaderRoundTrip` | internal/backup/archive.go:246-290 | A header written for a plain path, a directory's trailing slash included, is read back as that path |
| `Archive.AcceptedNamesArePlain` | internal/backup/restore.go:114-149 | Whatever a header says, an accepted name is a relative path of plain components: nothing lands outside the destination |
| `Archive.ExtractArchive` | internal/backup/archive.go:113-131 | Extracting a world archive under worlds_local gives exactly what the archive holds of worlds_local, at any depth |
| `Archive.RestoreReproduces` | internal/backup/archive.go:175-212 | Archive, extract and swap give the archived entries that are not rolling saves and the rolling saves on disk; the very tree, when the disk did not change |
| `Archive.ReproducedIffNoBackslash` | internal/backup/restore.go:117-126 | Extraction gives the archived worlds_local back if and only if none of its names holds a backslash |
| `Archive.SkippingIsFiltering` | internal/backup/archive.go:152-157 | A directory skipped whole leaves at every path exactly what filtering every path would |
| `Archive.ArchivedEntries` | internal/backup/archive.go:181-187 | What is archived of worlds_local is every entry that is not a rolling save, whole |
| `Archive.ExtractIsPut` | internal/backup/restore.go:85-112 | Extraction reads headers back as the entries they were written for, under the prefix it was given |
| `Archive.PutWalk` | internal/backup/archive.go:119-131 | Writing back what a walk emitted, in its order, builds the filtered directory |
| `ArchiveNames.AutoSaveIff` | internal/backup/archive.go:197-208 | A name is a rolling save if and only if it is any world, `_backup_auto-`, a digit, digits and dashes, and then `.fwl`, `.db` and `.old`, each or not, in that order |
| `ArchiveNames.ArchiveHolds` | internal/backup/archive.go:175-187 | At every path an archive holds what worlds/ has there, but nothing under cache and no rolling save of worlds_local |
| `ArchiveNames.NamesAreRead` | internal/backup/restore.go:114-137 | Around any plain path, `./` is dropped, a name and `../` cancel, a backslash is a slash, and an absolute or climbing name is refused |
| `ArchiveNames.PutIff` | internal/backup/restore.go:98-111 | An entry is written exactly where only directories are on its way and nothing of another kind is at its end, and is then there |
| `ArchiveNames.PutTouchesNothingElse` | internal/backup/restore.go:151-173 | Writing an entry leaves every path that is not on its way as it was |
| `ArchiveNames.EntryIsPlaced` | internal/backup/restore.go:85-112 | An entry outside the prefix is passed over; inside it, a file and a directory are written and anything else is refused |
| `TreeWriter.Writer.VisitEntry` | internal/backup/archive.go:142-171 | Visiting one entry appends exactly the headers of what is kept of it, and counts its files |
| `TreeWriter.Writer.VisitAll` | internal/backup/archive.go:125-130 | So does visiting a directory's entries in listing order |
| `TreeWriter.WriteTree` | internal/backup/archive.go:113-131 | The archive written is the listing of what is archivable, and the count is the number of its regular entries |
| `TreeWriter.WriteEntry` | internal/backup/archive.go:243-294 | A live copy of a file that changed since the walk writes exactly the promised size, padded with zeros, skips what is gone or is no file, and fails only on what does not open; a cold one writes the whole file or fails |
| `TreeWriter.Extract` | internal/backup/restore.go:49-83 | The loop over entries stops at the first one refused and otherwise builds the extracted tree |
| `TreeWriter.ArchiveAndExtract` | internal/backup/archive.go:119-171 | Run one after the other, the two methods give back what is archived of worlds_local |
| `SemVer.HigherIsStrict` | internal/api/manifest_code.go:376-380 | higherVersion never cycles: it is irreflexive and transitive for every two texts, unreadable ones included. Which one is the higher is said by the four rows below |
| `VersionOrder.ReleasesCompareByNumber` | internal/mods/semver/semver.go:14-40 | Of any two releases printed in decimal, one is higher exactly when its numbers are lexicographically larger and all six fit an int |
| `VersionOrder.PreReleasesCompareByCore` | internal/mods/semver/prerelease.go:37-57 | Pre-releases compare by their numbers first; a release is above every pre-release of the same numbers and below none |
| `VersionOrder.IdentifiersDecide` | internal/mods/semver/prerelease.go:59-110 | Of equal numbers the first identifier that differs decides, whatever is around it: numbers by value, a number below a name, names as strings; and of two lists one of which begins the other the longer is higher |
| `VersionOrder.OnlyVersionsCompare` | internal/mods/semver/prerelease.go:15-33 | A text that is read is three numbers between dots and perhaps a dash and identifiers, and any other is neither above nor below anything |
| `VersionOrder.SignsAreRead` | internal/mods/semver/semver.go:20-26 | A plus sign and leading zeros are read past, a minus sign only before zero |
| `SemVer.CompareIsAntisymmetricIff` | internal/mods/semver/prerelease.go:38-99 | Compare(b, a) is -Compare(a, b) unless the two first differ in numeric identifiers of one value; it is zero for equal versions only |
| `SemVer.AmbiguousVersionsExist` | internal/mods/semver/prerelease.go:19-99 | 1.0.0-01 and 1.0.0-1 are read as two versions, each below the other |
| `ModLookups.ExpandIsExact` | internal/api/manifest_code.go:276-298 | What expandMods adds is exactly the unlisted packages pinned by a version it looked up, each at a pinned version that no pin read for it exceeds, with the strongest side tag of the mods it was read from, from the registry of the first read, over all its passes in order |
| `ModLookups.OneMoreRead` | internal/api/manifest_code.go:304-324 | One more pin keeps all three exact, whichever of version and side it raises |
| `ModExpansion.ExpandIsClosed` | internal/api/manifest_code.go:276-298 | And what is returned is closed: the listed mods first and unchanged, then unlisted ones by name, and every readable pin of an unlisted package that any returned mod holds is met by one of them, not below the pin and not weaker-sided than its holder |
| `ModExpansion.AddedModsAreReached` | internal/api/manifest_code.go:300-326 | Every mod it adds ends a chain of pins that starts at a listed mod and runs through versions its passes looked up, is pinned at its version by one of them, and carries a listed mod's side |
| `ModExpansion.FixpointAnswers` | internal/api/manifest_code.go:279-298 | It ends on every finite catalogue, cycles included, and answers whenever no lookup fails |
| `ModVersions.TheLargerPinIsTaken` | internal/api/manifest_code.go:276-326 | Of two listed mods that pin one package at any two printed releases the expansion takes the larger and the stronger side, and adds nothing else |
| `ModVersions.ExpandFailsIff` | internal/api/manifest_code.go:285-296 | It gives no answer if and only if a version it looks up is one whose lookup fails |
| `ModVersions.SidesInOrder` | internal/mods/manager/side.go:12-24 | The four side tags in their order, any other text being as weak as no tag |
| `ModExpansion.FactsGrow` | internal/api/manifest_code.go:312-324 | The measure: a pass that changes anything adds a name, a version reached or a side held, out of finitely many, and takes none away |
| `StalePins.PinnedByNoneIff` | internal/api/manifest_code.go:279-298 | Over every expansion, no returned mod pins a name if and only if every version looked up that pins it was raised since |
| `StalePins.LookedUpIsReturnedOrRaised` | internal/api/manifest_code.go:285-296 | A version the passes looked up is returned, or its mod is returned at a higher one, and never both |
| `StalePins.ConsistentPinsAreReturned` | internal/api/manifest_code.go:276-298 | Where the versions that chains of pins from the listed mods reach pin no unlisted name at two versions one of which is higher, every added mod ends such a chain through returned mods only |
| `StalePins.SupersededPinsStay` | internal/api/manifest_code.go:318-320 | A witness that otherwise it need not: for any three names and two ordered versions, a returned mod that no returned mod pins |
| `ModLists.Expansion.DeriveFrom` | internal/api/manifest_code.go:300-326 | The loop over one row's dependencies updates the derived map in place and says whether it changed |
| `ModLists.PassOver` | internal/api/manifest_code.go:285-294 | One pass over the snapshot, ended by the first failing lookup |
| `ModLists.ExpandMods` | internal/api/manifest_code.go:279-298 | The loop until nothing changes computes the fixpoint |
| `ModLists.ReduceMods` | internal/api/manifest_code.go:328-363 | For uniquely named rows, within as many rounds as there are rows: the rows that are nobody's dependency, then dependencies that what was listed so far did not give back, without duplicates; its expansion gives back every row's version, source and side |
| `ModRoutes.GivesBackIff` | internal/api/manifest_code.go:276-326 | The expansion refines plain reachability: of settled rows, some listed ones give a row back if and only if a route of pins from them ends at its own version and one of them with its side rank pins its package, or a package that does, and so on |
| `ModRoutes.FixpointLed` | internal/api/manifest_code.go:304-324 | Each derived package is always at the end of such a route at its version, and its side comes from a listed mod that touches it |
| `ModReduction.PromiseKeptIff` | internal/api/manifest_code.go:328-363 | Of settled rows, the list leaves out each dependency the rest expands to if and only if no row that the chosen rows do not reach is reached from the chosen and the other such rows |
| `ModReduction.DerivableIff` | internal/api/manifest_code.go:328-363 | Entry by entry: the rest of the list expands to it exactly when the other rows kept reach its version and side |
| `ModReduction.ListsExactlyKept` | internal/api/manifest_code.go:331-361 | The list holds the rows that are nobody's dependency and the rows those do not reach, and no others |
| `ModReduction.DerivableIsPinned` | internal/api/manifest_code.go:328-329 | On any list, an entry the rest expands to ends a chain of pins from the rest |
| `ModReduction.UnpinnedIsNotDerivable` | internal/api/manifest_code_test.go:75-80 | On any list, a mod that no catalogue row pins at its own version, as one upgraded by hand, is never one the rest expands to |
| `ModReduction.OrphansAreBothListed` | internal/api/manifest_code.go:352-361 | The promise fails on a whole family: of two dependencies the first of which pins the second both are listed, though the first alone expands to both |
| `ModLists.MissingFrom` | internal/api/manifest_code.go:348-357 | The rows an expansion does not give back, and no others |
| `ModLists.InitialLists` | internal/api/manifest_code.go:331-342 | One loop gives what every row wants and a starting list that is a selection of the rows |
| `ModLists.ChosenAre` | internal/api/manifest_code.go:331-342 | The list starts from the rows that are nobody's dependency, just those |
| `ModLists.Grown` | internal/api/manifest_code.go:353-361 | Adding what is missing keeps a selection and adds a name not there before |
| `ModLists.ExpansionHasUniqueNames` | internal/api/manifest_code.go:279-298 | An expansion of uniquely named mods names no package twice |
| `ClientExport.FinishedWalkIsExported` | internal/api/mods_export.go:277-324 | A finished walk includes exactly the least closure of the seeds, no server-only package, each at its installed version where installed; a reason is still "tagged" iff a seed nothing included depends on; no conflicts iff everything included is described and readable |
| `ClientExport.ExportSays` | internal/api/mods_export.go:224-362 | Row by row: every enabled mod tagged for the client is in, and so is each dependency its packages pin in the registry they came from unless it is server-only, at the version the server runs; nothing is in where nothing is tagged |
| `ClientExport.FinishedConflict` | internal/api/mods_export.go:296-309 | The conflicts are exactly an unreadable or server-only dependency of an included package and an included package without a row, each with its own fields |
| `ClientExport.ReadKeepsInv` | internal/api/mods_export.go:326-362 | Reading one dependency keeps what the walk has established, whatever the dependency |
| `ClientExport.GroundedIsLeast` | internal/api/mods_export.go:280-324 | Nothing is included that some closed set of names could do without |
| `ClientProfile.Exporter.AddDependency` | internal/api/mods_export.go:326-362 | The in-place update of the included map, the queue and the conflicts is one reading of a dependency |
| `ClientProfile.Exporter.NextPackage` | internal/api/mods_export.go:286-316 | Taking one package off the queue keeps the invariant, the queue shrinks unless a package is added, and it fails only where the row of an included package cannot be read |
| `ClientProfile.Exporter.WalkClosure` | internal/api/mods_export.go:277-324 | The worklist ends, on cycles too, with the closure included, or at an included package whose row cannot be read |
| `ClientProfile.BuildExport` | internal/api/mods_export.go:224-275 | The preview lists the closure of the installed seeds and, in order, every installed mod that is not in it; there is none only where the walk reaches a row that cannot be read |
| `ClientProfile.PreviewSplits` | internal/api/mods_export.go:255-271 | Every installed mod is in the preview's mods or in its excluded ones, never in both |
| `ClientProfile.LeftOutSays` | internal/api/mods_export.go:255-271 | A mod left out is listed as it is installed, as disabled where it is and by its tag otherwise, and nothing else is listed |
| `ClientProfile.SeedEntries` | internal/api/mods_export.go:230-242 | The walk starts from exactly the installed packages whose tag makes them seeds, each queued once |
| `UploadBudget.UploadStaysInBudget` | internal/api/worlds.go:525-562 | For every script of writes: at most limit+1 bytes in at most maxEntries writes; success if and only if it is sound, fits both limits and holds a file |
| `UploadContents.UploadLandsWhole` | internal/api/worlds.go:525-658 | By the parts themselves: an upload succeeds if and only if all of it reads, its files fit both limits and one is its own; then each plain part, and each zip followed by its wanted members, is stored in order and counted |
| `UploadContents.EveryFileLands` | internal/api/worlds.go:637-657 | Each world file of each zip, whatever came before it, is among what a successful upload stored |
| `UploadContents.FirstBadPartDecides` | internal/api/worlds.go:544-562 | After parts that read and fit, an unreadable part is too large and an unreadable zip is a bad zip, whatever follows |
| `UploadContents.WriteErrorIff` | internal/api/worlds.go:682-707 | One write fails as internal where the source or disk does before the budget is used up, as too large past it, and how many bytes it leaves |
| `UploadBudget.PlaySucceedsIff` | internal/api/worlds.go:56-75 | A sequence of writes succeeds if and only if its total fits the limit and its number the entry limit |
| `UploadBudget.WriteBounds` | internal/api/worlds.go:56-75 | One write succeeds exactly when there is an entry and room left; past the limit it stores one byte and ends the upload |
| `UploadBudget.Budget.Write` | internal/api/worlds.go:56-75 | The budget's fields after one write, which may not follow a failed one |
| `UploadBudget.CopyStaged` | internal/api/worlds.go:682-707 | One byte past the limit is read, so an oversized source fails instead of landing as a prefix |
| `UploadContents.StagePart` | internal/api/worlds.go:612-658 | A file is one write; a zip is one write and then one for each wanted member; finished, the part read whole and its contents are stored in that order |
| `UploadContents.StageMembers` | internal/api/worlds.go:637-656 | The loop over zip members stops at the first failure; finished, every wanted one is stored and counted |
| `UploadContents.StageUpload` | internal/api/worlds.go:525-562 | The loop over parts shares one budget; it succeeds if and only if all of it reads, fits both limits and holds a file, and has then stored every file of every part in order |
| `UploadAdmission.DiskStaysAboveTheFloor` | internal/api/worlds.go:245-295 | Over every interleaving of uploads reserving, writing, removing and releasing, from the first admission on, free space is at least the floor plus every reserved byte not yet written, less one byte for each upload that went past its limit |
| `UploadAdmission.AdmissionIsRemembered` | internal/api/worlds.go:245-295 | That holds in every state after any with an upload, the last release included |
| `UploadAdmission.RunKeepsInv` | internal/api/worlds.go:245-295 | In every state each upload stays within its reservation and one byte, and free space covers what is reserved and not on disk |
| `UploadAdmission.StepKeepsInv` | internal/api/worlds.go:264-295 | Every step keeps it, a write between the free-space reading and the reservation included |
| `UploadAdmission.Reservations.ReserveUpload` | internal/api/worlds.go:251-295 | In 64-bit unsigned arithmetic no subtraction underflows; a slot is given exactly when the instance has none and the announced length, or one byte, fits under 4 GiB and above the floor and the other reservations; the budget is the allowance of the interleaving's own step |
| `UploadAdmission.AllowanceIsGreatest` | internal/api/worlds.go:277-280 | The budget is the most bytes that both 4 GiB and the free space above the floor and the other reservations allow |
| `UploadAdmission.Reservations.Reserved` | internal/api/worlds.go:273-276 | The sum of the reservations does not wrap |
| `UploadAdmission.Reservations.Release` | internal/api/worlds.go:290-294 | Releasing gives back exactly this instance's reservation |
| `Retention.Prune` | internal/backup/prune.go:34-73 | The loop with its three counters removes exactly the archives condemned by what is newer than them |
| `Retention.ClassCount.Judge` | internal/backup/prune.go:52-70 | One archive's judgement from the class's counter and last-good flag |
| `Retention.SurvivorsKeepTheTally` | internal/backup/prune.go:34-73 | Of every class the limit survives, with one more only for the last good archive, and a good archive survives if there was one |
| `Retention.PruneIsIdempotent` | internal/backup/prune.go:43-73 | Pruning what survived removes nothing |
| `Retention.PruneSplits` | internal/backup/prune.go:43-73 | Every archive is removed once or survives, and no pinned one is removed |
| `Retention.ClassesDoNotInterfere` | internal/backup/prune.go:49-57 | What is removed of a class is what would be removed of it alone |
| `Retention.NewerNeverRescue` | internal/backup/prune.go:43-73 | Adding newer archives never rescues one already doomed |
| `Retention.PruneIsExact` | internal/backup/prune.go:34-73 | Archive by archive, in its own fields: it goes exactly when it is unpinned, its class has a limit and that many newer unpinned archives, hot copies by their own limit and all else by the cold one, and it is not the newest unflagged one |
| `Rcon.WriteThenRead` | internal/command/rcon.go:87-125 | Reading a written packet followed by anything gives that packet and the rest, for all 32-bit ids and types |
| `Rcon.ReadThenWrite` | internal/command/rcon.go:87-125 | Writing an accepted packet again gives the very bytes it was read from |
| `Rcon.CutPacketIsBroken` | internal/command/rcon.go:104-117 | No proper prefix of a written packet is accepted |
| `Rcon.StreamWriteThenRead` | internal/command/rcon.go:87-125 | A stream of packets is read back as those packets |
| `Rcon.StreamReadThenWrite` | internal/command/rcon.go:87-125 | A stream that reads whole is the one encoding of its packets |
| `Rcon.OnTheWire` | internal/command/rcon.go:14-102 | The bytes of the login and the command, and of a refused login: length, id, type, body and two zeros |
| `Rcon.Conn.WritePacket` | internal/command/rcon.go:87-102 | The bytes put on the connection, all of them or as many as it takes |
| `Rcon.Conn.ReadPacket` | internal/command/rcon.go:104-125 | The packet read and what is left on the connection |
| `Rcon.Conn.ReadLoginReply` | internal/command/rcon.go:74-85 | One empty response packet ahead of the login reply is skipped |
| `Rcon.Conn.ExecuteRCON` | internal/command/rcon.go:36-72 | The command is written at most once and only after the login is accepted; a failure carries ErrNoReply iff the exchange came to writing it; and exactly when ErrNoReply is carried although none of it was sent |
| `Rcon.AnsweredCommand` | internal/command/rcon.go:36-85 | A server that accepts the login and answers is heard, with or without a greeting packet |
| `ChunkName.NameIsInjective` | internal/backup/worldcheck.go:339-345 | No two chunks have one file name |
| `Decimal.DecIsRead` | internal/backup/worldcheck.go:342-342 | A number is printed without a leading zero and reads back as itself |
| `Decimal.ReadIsDec` | internal/backup/worldcheck.go:342-342 | And every decimal without a leading zero is what its value is printed as |
| `ChunkName.NameIsSpelled` | internal/backup/worldcheck.go:339-342 | Any two lower-case hexadecimal pairs and two such decimals, put together as a chunk name, are the name of the chunk they spell; so the printed name is fixed character by character |
| `SaveCheck.CheckIsExact` | internal/backup/worldcheck.go:247-381 | Over a save of a measured version the check reports nothing if and only if the save is in the encoding it documents: four files, agreeing versions, a body that inflates as far as it is there, an index of exactly its announced length, every chunk there with its count, and the total |
| `SaveCheck.CheckAt` | internal/backup/worldcheck.go:285-313 | The same for each version, with the version the check reads |
| `SaveCheck.IndexReadBack` | internal/backup/worldcheck.go:322-366 | Reading an encoded index gives it back |
| `SaveCheck.IndexWrittenBack` | internal/backup/worldcheck.go:322-366 | Encoding what was read of a well-sized index gives its bytes back |
| `SaveCheck.IndexIsRead` | internal/backup/worldcheck.go:322-366 | The index is found sound exactly when it is an encoding whose total and chunks agree |
| `SaveCheck.Db2IsRead` | internal/backup/worldcheck.go:173-202 | A `.db2` passes exactly when it is a version, a time, a length and a body whose first that many bytes, or all it has when they are fewer, inflate |
| `SaveCheck.Fwl2IsRead` | internal/backup/worldcheck.go:293-313 | The `.fwl2` agrees exactly when the version is its second word |
| `SaveCheck.OkIsVersion` | internal/backup/worldcheck.go:285-291 | The `.ok` gives a version exactly when it is those four bytes and no more |
| `SaveCheck.ChunkIsRead` | internal/backup/worldcheck.go:339-358 | A chunk passes exactly when its file is there, not empty, and repeats its count |
| `SaveCheck.NoBadEntries` | internal/backup/worldcheck.go:336-358 | No chunk is named exactly when all pass |
| `SaveCheck.CheckChunks` | internal/backup/worldcheck.go:322-366 | The loop with its 64-bit total reports the first of the index's problems that applies |
| `SaveCheck.ReadEntries` | internal/backup/worldcheck.go:336-358 | The size cap keeps the running total from wrapping |
| `SaveCheck.Attention` | internal/backup/worldcheck.go:247-281 | The newest generation's files, and no other's, decide what is reported |
| `SaveFindings.FindingsIff` | internal/backup/worldcheck.go:293-320 | Of a save that says version 41 or 42, each finding is reported exactly when its bytes are wrong: the version in the other three files, the index, the body |
| `SaveFindings.OtherVersionsAreUnchecked` | internal/backup/worldcheck.go:253-256 | Four bytes of `.ok` that spell any other version end the check, whatever else is there, and nothing else does |
| `SaveFindings.IncompleteIff` | internal/backup/worldcheck.go:258-273 | A save is reported incomplete exactly when a file is missing or `.ok` is no word, and nothing else is then said |
| `SaveFindings.FaultIff` | internal/backup/worldcheck.go:346-353 | A chunk is missing, empty, or without its count in bytes two to five, and which is said exactly |
| `SaveFindings.BadEntriesIff` | internal/backup/worldcheck.go:336-354 | The chunks named are those of the entries with a fault, each with its own |
| `SaveFindings.ProblemIff` | internal/backup/worldcheck.go:322-366 | Which problem of an index is reported: its size, header, length, chunks, total, in that order |
| `SaveCheck.Newest` | internal/backup/worldcheck.go:249-249 | The greatest generation |
| `SaveWriter.WrittenSavePasses` | internal/backup/worldcheck.go:247-366 | Every save written file by file in the game's format passes, for any chunks with distinct ids |
| `SaveWriter.LostChunkIsNamed` | internal/backup/worldcheck.go:336-362 | A chunk file lost from such a save is the one thing reported, by its name |
| `KeyRecovery.Store.AcceptNewKey` | cmd/valmind/keyloss.go:53-83 | Cut after any number of store operations, the database is between where it was and where a whole run leaves it; the check is written only once every listed secret opens or is cleared; with a check that opens nothing changes; the report names what this run reset |
| `KeyRecovery.Store.ResetAll` | cmd/valmind/keyloss.go:69-79 | The loop leaves every listed secret open or reset, and stops only where it is cut |
| `KeyRecovery.Store.Reset` | cmd/valmind/keyloss.go:94-155 | Each column's rule touches its own row only, and leaves it reset |
| `KeyRecovery.Store.DisableThenClear` | cmd/valmind/keyloss.go:189-218 | The switch goes off before the secret goes: cut between, the row is off with its secret, never on without |
| `KeyRecovery.Store.ResetServerPassword` | cmd/valmind/keyloss.go:165-187 | A new password is sealed under the new key and the server marked for a restart, in one statement |
| `KeyRecovery.Store.ListSecrets` | internal/store/rotate.go:121-162 | Every nonempty value that does not begin like an envelope without a key id, once |
| `KeyRecovery.CutAnywhereIsSafe` | cmd/valmind/keyloss.go:53-83 | Over any number of cut runs: nothing is on over a cleared secret that was not before, no secret that opens is touched, and a new check stands only over secrets that open |
| `KeyRecovery.RunsAreOneRun` | cmd/valmind/keyloss.go:53-83 | Any sequence of runs leaves the database where one run could have |
| `KeyRecovery.RerunIsOneRun` | cmd/valmind/keyloss.go:53-83 | So do two |
| `KeyRecovery.ResetOnce` | cmd/valmind/keyloss.go:69-79 | A secret an earlier run reset is not reset again |
| `KeyRecovery.ReportNamesIff` | cmd/valmind/keyloss.go:165-187 | A later run's report names a secret stale at the start if and only if no run before it reset it: a password a cut run sealed is printed nowhere |
| `KeyRecovery.EveryScheduleEndsAlike` | cmd/valmind/keyloss.go:53-83 | Every schedule of cuts and reruns that ends in success ends in one database, fresh passwords aside |
| `KeyRecovery.StaleAfterSuccess` | cmd/valmind/keyloss.go:94-218 | A stale server password is then sealed under the active key and its server marked to restart; any other stale secret is cleared and what it belongs to is off |
| `KeyRecovery.UnreadableAfterSuccessIff` | internal/store/rotate.go:121-134 | What success leaves unreadable is exactly what began like an envelope with an empty key id before the first run, and that is left as it was |
| `AuditExport.AuditLog.Export` | internal/api/audit.go:199-248 | For any batch size, and whatever rows are inserted between pages, every matching row that existed at the start is written exactly once, newest first; with only newer rows arriving, those and no others; it is incomplete exactly where a query failed, and then a prefix; and the loop ends. Asked of the table: no row that could end a full page has a matching row between itself and its cursor |
| `AuditExport.AuditLog.ListAuditLog` | internal/store/audit.go:49-104 | A page is the first rows of the selection in descending order, up to the limit |
| `AuditExport.FilterSays` | internal/store/audit.go:51-80 | What each field of the filter asks for, from since on and before until, and that several ask for all of it |
| `AuditExport.NewestFirst` | internal/store/audit.go:81-84 | Rows in order are newest first and by falling ids where times are equal |
| `AuditExport.ExportIsUnique` | internal/api/audit.go:192-248 | The exported rows do not depend on the batch size |
| `AuditExport.NextPage` | internal/api/audit.go:232-246 | The next page joins the last one with nothing between, above or twice |
| `AuditCursor.ExportIsExactIff` | internal/api/audit.go:219-247 | Over a table nobody writes to, in whatever spellings of time, a finished export is every matching row once and in order if and only if no row that ended a full page has a matching row between itself and its cursor |
| `AuditCursor.TurnIsExactIff` | internal/api/audit.go:232-246 | One page turn gives the page that is next exactly when that gap is empty |
| `AuditCursor.SkippedIsMissed` | internal/api/audit.go:232-246 | A row below the last one but not below its cursor is left out of the page it belongs to |
| `AuditCursor.RepeatedIsTaken` | internal/api/audit.go:232-246 | A last row whose cursor sorts above it is selected again, or a row above it is |
| `AuditCursor.ShortFractionSortsAbove` | internal/store/time.go:8-29 | Of UTC times only the nine-digit spelling is its own cursor; any other sorts above it, so its gap skips |
| `AuditCursor.RunThatSkips` | internal/store/time.go:21-29 | A row stored without a fraction ends a page, and the row half a second away is never written |
| `AuditCursor.RunThatNeverEnds` | internal/api/audit.go:219-247 | A row whose cursor sorts above it is every page at batch size one: no export of it finishes |
| `AuditCursor.WestSortsBelow` | internal/store/time.go:21-29 | A time stored west of UTC is such a row |
| `Authorization.CanIffAllowed` | internal/authz/authz.go:33-112 | For every user, grant and instance with a successful lookup, Can holds exactly for the actions Allowed lists |
| `Authorization.EmptyInstanceDiffersIff` | internal/authz/authz.go:76-78 | Without an instance id they part exactly where a grant is found under the empty id |
| `Authorization.NoGrantReachesAdmin` | internal/authz/authz.go:71-75 | No perms list gives a member a never-grantable action, by either reading |
| `Authorization.PermsOnlyAdd` | internal/authz/authz.go:134-164 | What is carried grows with the set of perms, so it does not depend on their order or repetition |
| `Authorization.RawImpliesEdit` | internal/authz/authz.go:158-162 | config.raw is never held without config.edit |
| `Authorization.Granted` | internal/authz/authz.go:134-164 | The loop over perms expands a grant to its role, its grantable extras and config.edit with config.raw |
| `Authorization.Can` | internal/authz/authz.go:56-90 | decide's answer, for every input |
| `Authorization.RolesHold` | internal/authz/action.go:80-106 | The roles' actions and the grantable ones, by name; all others are an administrator's |
| `Authorization.MembersMayDo` | internal/authz/authz.go:56-90 | A member may do what the role of the grant holds and what its extras name, and nothing without a grant, a lookup or an instance |
| `Authorization.OthersMayDo` | internal/authz/authz.go:60-70 | An administrator may do everything, a disabled user and nobody nothing |
| `Authorization.Allowed` | internal/authz/authz.go:92-112 | The whole list, in name order, or an error exactly when a lookup fails that is needed |
| `Schedules.CheckInterval` | internal/api/schedules.go:811-840 | Within 48 rounds, accepted exactly when every run of the two-day horizon is an hour or more before the next |
| `Schedules.RunsAscend` | internal/api/schedules.go:827-838 | Runs follow each other in time, and exist as long as a later one does |
| `Schedules.Schedule.ApplyScheduleTiming` | internal/api/schedules.go:667-695 | The row's zone, expression and next run after a body, or a refusal |
| `Schedules.Schedule.ApplyPlayerPolicy` | internal/api/schedules.go:290-329 | The row's policy after a body, or a refusal |
| `Schedules.Schedule.ApplyEdit` | internal/api/schedules.go:635-665 | The edited row and whether its hold is released, or a refusal |
| `Schedules.Schedule.Patch` | internal/api/schedules.go:555-611 | What a PATCH stores, or nothing |
| `ScheduleEdits.EditRefusedIff` | internal/api/schedules.go:555-695 | An edit is refused for a step, zone, expression, interval, deferral or policy that is wrong, and for nothing else |
| `ScheduleEdits.EditTakesTheBody` | internal/api/schedules.go:635-695 | An accepted edit leaves each field as the body gives it, and as it was where the body does not |
| `ScheduleEdits.EditSetsTheNextRun` | internal/api/schedules.go:648-693 | The next run is the moved row's, or that of a row switched back on, or the one it had |
| `ScheduleEdits.CreatedTakesTheBody` | internal/api/schedules.go:446-475 | A new row's fields, with their defaults |
| `ScheduleEdits.WhatStopsTheServer` | internal/instance/control/chain.go:136-146 | Which steps and kinds stop the server, and which of those may wait for players |
| `ScheduleEdits.WhichStepsRun` | internal/instance/control/chain.go:102-135 | Which steps a chain may have |
| `ScheduleClock.RunKeepsInv` | internal/api/schedules.go:638-665 | Over every interleaving of edits and clock steps, a waiting row's kind or chain stops the server, a row that stops it has been checked for its interval, and its deferral is within bounds |
| `ScheduleClock.StepKeepsInv` | internal/api/schedules.go:555-611 | Every load, store, tick, hold and advance keeps this |
| `ScheduleClock.EditIsSteady` | internal/api/schedules.go:638-665 | An accepted edit of a row that has these properties has them |
| `ScheduleClock.EditReplacesSteps` | internal/api/schedules.go:613-665 | After an accepted edit the steps are the row's own or the body's; the body's are a chain's, valid, and spaced at the row's new times if any takes the server down |
| `ScheduleClock.EditIsExact` | internal/api/schedules.go:634-695 | An accepted edit releases a hold exactly when the row is off, moved to other times or no longer waits; a moved row and one switched back on next run after now, and no other edit moves the next run |
| `ScheduleClock.CreatedIsSteady` | internal/api/schedules.go:444-478 | So has a created row, which holds nothing |
| `ScheduleClock.RunKeepsHold` | internal/api/schedules.go:634-665 | Over every run whose writes come from copies that are still true, a held row is enabled and waits |
| `ScheduleClock.CommitBreaksHoldIff` | internal/store/schedules.go:148-163 | Storing an edit leaves a hold on a row that is off or does not wait if and only if the edit leaves the row so and the clock recorded the hold after the edit loaded it |
| `ScheduleClock.JudgeBreaksHoldIff` | internal/scheduler/scheduler.go:258-293 | The clock leaves one if and only if it begins a hold on a row that was switched off or stopped waiting after the tick read it |
| `ScheduleClock.HoldOutlivesTheWait` | internal/store/schedules.go:137-163 | A run in which it happens, from any idle, due and waiting row |
| `ScheduleClock.HoldEndsInTime` | internal/scheduler/scheduler.go:186-293 | An uninterrupted tick keeps when a hold began, ends it at the longest deferral or when the row stopped waiting, and enqueues the run exactly when the row is not held |
| `ScheduleEdits.DueRunsIff` | internal/scheduler/scheduler.go:166-293 | What is judged due is enqueued exactly when nobody keeps it waiting and the row, read again, is still on and due at those times; otherwise its wait is recorded once, or its first time set |
| `ScheduleEdits.RunMovesOn` | internal/store/schedules.go:250-262 | After the run the row moves on and holds nothing, unless it was moved meanwhile |
| `ScheduleEdits.CommitWrites` | internal/store/schedules.go:137-163 | A stored edit writes its row and leaves a hold it does not end as the database has it |

## Left out

- Archive.ReproducedIffNoBackslash: names archived from elsewhere under worlds/ are taken to hold no backslash; one that does can make extraction of worlds_local fail or succeed for reasons of its own.
- Archive.RestoreReproduces: the tree below worlds_local is taken to hold regular files and directories only; the walk leaves anything else out, as the source does. An archive is a list of typed entries: gzip, tar layout, permissions and times are not modelled.
- TreeWriter.WriteTree: the walk of a stopped server. A live copy's walk, in which entries vanish between the listing and the copy, is modelled one file at a time (TreeWriter.WriteEntry); that a short cold copy fails when the archive is closed is not modelled.
- SwapDirectory.Directory.Extract: a cut extraction may leave any entries; that an entry itself may be half written is covered by the transition system, which lets staging hold anything at all.
- WorldSwap.RunKeepsInv: nothing but attempts and recoveries writes the trees; a server started while a swap is unresolved is not modelled. Process crashes between completed filesystem calls. Power loss that reorders what was not synced is not modelled, and SyncDir is no step.
- ModExpansion.ExpandIsClosed: a dependency text is taken as already split into a name and a version, or as unreadable; the catalogue answers from a fixed table.
- ModLists.ReduceMods: rows are uniquely named, as the primary key of installed mods makes them (internal/store/migrations/0001_initial.sql:149-161); with two rows of one name that disagree the search would not settle.
- ModReduction.PromiseKeptIff: rows that are not settled. One row below a pin that reaches it, or weaker-sided than a row that touches it, can take several rounds to list what its own pins no longer bring, and there only ModReduction.DerivableIsPinned is stated. A failing lookup ends reduceMods and is left out here.
- ClientProfile.BuildExport: conflicts are in the order they are found; sorting them for display is not modelled.
- UploadContents.StageUpload: which names a zip member or a part may take, and two members staged under one name, are not modelled; a failure is too large, unreadable or empty, not its wire code.
- UploadAdmission.DiskStaysAboveTheFloor: nothing but the uploads takes disk space, and the floor is the lowest the servers ask for. A failed upload released before its last byte is removed counts one byte from then on.
- SaveCheck.Attention: one world directory of the 1.0 layout. The comparison of an older world's `.db` with its `.db.old`, the file name patterns of the archive walk, and the wording of findings, which names four chunks at most, are not modelled. Decompressing is a given predicate.
- AuditCursor.RunThatNeverEnds: FormatTime after ParseTime is a given function, and its value on the rows in question a hypothesis; offsets and calendars are not modelled.
- SaveWriter.WrittenSavePasses: the encoding is the one the check's source documents and reads; the game's own writer is not part of this model.
- Rcon.Conn.ExecuteRCON: deadlines and cancellation are the end of what the connection still gives or takes.
- KeyRecovery.Store.AcceptNewKey: sealing is a value bound to its key and place; drawing passwords until the launch rules accept one, and printing the report, are not modelled. The order in which secrets are listed is left open.
- AuditExport.AuditLog.Export: rows are inserted and never deleted or moved, as nothing in the repository deletes an audit row; their outcome may change and is no part of a row here. CSV quoting is left out.
- Authorization.Allowed: an action is a constructor and its wire name the constructor's place in the order of names; that the 37 names differ and parse back is taken from the list.
- Schedules.CheckInterval: the cron parser and the time zones are a given function that advances; where it answers with no next run the expression is accepted, as in the source.
- Schedules.Schedule.Patch: body texts are taken trimmed; the permissions a kind and its steps need are not modelled.
- ScheduleClock.RunKeepsInv: one schedule row that is not deleted; warnings to players and the enqueued job itself are left out.
- HTTP handlers, JSON, routing, WebSockets, audit-entry texts, the Docker, Steam, rclone, Discord and registry clients, alert rules and list views: plumbing around the parts above.
- The job engine, instance control beyond the order of one restore attempt, and the mod planner.
