# Backup trust, use and deletion

A Dafny model of the part of `dbabrain/backup_restore` that decides which copy of a backup may be trusted,
used or destroyed, with proofs of what those decisions promise. It verifies with
`dafny verify dfyconfig.toml` (Dafny 4.11).

| module | what it models |
|---|---|
| `CopyGate` | the checksum gate: screen the sources, compare the targets, then rounds of copy, hash and keep what is wrong. The target is a mutable map from path to content; the transport may write anything, write a part, raise, or queue. `Alone` is the rule for one file and `OneByOne` its repetition; the batch is proved to be it |
| `LocalCopy` | the gated copy of a run's files: confirmed against the catalog or sent through the gate, and the counts reported |
| `Retention` | the expiry plan over dependency chains. `Expires` states the rules over a set; `ExpiryPlan` is the pass over lists and dictionaries |
| `Offload` | the repository copy's life: backups, copy passes finished or broken off, release and expiry passes, checks and foreign damage as steps of a state machine, and the passes as methods proved equal to the steps |
| `RepositoryPaths` | where a copy lies and the way back to a folder's copies |
| `BackupOrder`, `StagingCleanup` | the cleanup of a restore's staging folder: per-chain anchors, the age gate, and repetition |
| `LogRestore` | transaction logs over a connection that may break, against a database that is absent, restoring at a position, or online at one |
| `ChainSelection` | full, differential and logs for a moment, the two log selections compared, and the selected chain restored end to end |
| `RestorePlan` | the generated SQL Server plan, interpreted over the databases' states, and the walk over its steps |
| `Workflow` | the restore workflow's phases and one server's verdict |
| `Basics` | options, results, counting, sorting and text |

Hosts, clocks and the network are parameters: a transport is a function of the path, the copies made onto it so
far and its content; a hash is a function of content; the fate of each SQL batch is a function of its number.
Moments are whole seconds, and a log's position and a backup's stamp share one scale.

Assumptions a reader should know:

- A checksum stands for content; that two contents differ in their checksums is nowhere assumed. Checksums are
  compared as the code does: without case in `SameBytes`, with case where a source is held to its record.
- An answer that names a failed login means the batch never started, as `restore_sqlcmd.py:32-36` reads it.
- A log applies when it starts at or before the database's position and ends after it; STOPAT inside a log
  recovers at that moment, STOPAT past its end leaves the database restoring.
- In `Offload` a new backup is written where no file is, at no path of a row that is not pruned (the catalog's unique
  index, `db/backup_catalog.py:252-254`), and records its checksum in lower case; its repository path is any. The catalog
  offers each pass the rows its query selects (`db/backup_catalog.py:970-1101`); the files of one copy pass have targets
  of their own; the repository is written by these passes only, and one that raises has written no target but those of
  its files whose source it found.
- In `RestorePlan` the listing gives each header's moments and they are what the file holds; selection goes by when a
  backup finished, the server by where it ends.

Properties that do not hold as promised, with the condition under which they do or a concrete case:

- A lost RESTORE LOG can be taken as done by a history row of an *earlier* restore, since the history read is not
  limited to this run (`MistakenExactlyByAStaleRow`, `AStaleRowAtWork`).
- A point-in-time plan whose last listed log ends before the moment leaves its database restoring, and a log that ends
  by the anchor fails its step (`PlanRunsExactly`, `StoppedPastTheLastLog`); a plan that may not overwrite fails on a
  database stated twice.
- A released file's only copy can be lost: an expiry removal that is not answered takes it, or a later backup takes its
  path, which the catalog admits, and the next copy is written over it or its own expiry takes the newer file's copy
  (`LostExactly`, `AnUnansweredRemovalLosesAFile`, `AReusedPathLosesAFile`, `AReusedPathLosesACopy`,
  `VerifiedOverAnother`). Nothing is lost while removals are answered and no backup takes the path of a copy that has not
  expired (`NothingIsLost`).
- A refused removal, or a path two rows share, can leave a differential without its full, or strand a control file that no later pass names
  (`ExpiryKeepsChainsExactly`, `ExpiryPassesAgree`).
- A server's verdict keys results by name, so a later success hides a failure of the same name
  (`FailedExactly`, `GreenerExactly`, `GreenerThanItsDatabases`).
- The path mapping is injective only up to slashes; a doubled slash or ".." below the backup folder can lead out of the
  server's folder, and a doubled slash onto another file's copy (`OneCopyPerFile`, `CopyLiesUnderItsServer`,
  `WhereTheMappingFails`).
- The way back answers for folders outside the backup folder exactly when that folder and the copies' folder end in one
  name (`BesideExactly`); for folders at or below it the answer is right (`SourceIsWhereTheMappingPuts`).
- A selected, unbroken chain fails to come back when every log ends at or before where the database already stands
  (`ComesBackExactlyWhenALogApplies`).
- A cleanup may follow a check that could not be asked, or one that answers failed but lists no database
  (`CleanedUpUncheckedExactly`, `UncheckedIsCleanedUp`).

## Model

| member | source | states |
|---|---|---|
| `CopyGate.CopyVerifiedBatch` | dbabrain/backup_restore/copy_gate.py:165-334 | the batch refines the per-file rule: for files with distinct targets the outcomes and every path's content are those of the files proven one after the other; one copier call per attempt, no queued copy left behind, and a pause only between rounds |
| `CopyGate.CopyVerified` | dbabrain/backup_restore/copy_gate.py:135-162 | a batch of one is the rule for one file |
| `CopyGate.OneByOneIsEachAlone` | dbabrain/backup_restore/copy_gate.py:179-182 | with distinct targets each file ends, verdict, attempts and target content, as it would have had it been the only one; paths that are no target are untouched |
| `CopyGate.SameAsOneByOne` | dbabrain/backup_restore/copy_gate.py:179-182 | a run in which every file is settled as it would have been alone is the one-by-one run, whatever order the rounds took |
| `CopyGate.OneRound` | dbabrain/backup_restore/copy_gate.py:265-315 | one round keeps every file on the course it would have taken alone, and makes exactly one attempt for each pending file |
| `CopyGate.RunRounds` | dbabrain/backup_restore/copy_gate.py:261-323 | at most retries + 1 rounds settle every file; the pauses are one fewer than the longest file needed attempts |
| `CopyGate.CopyAndHash` | dbabrain/backup_restore/copy_gate.py:268-281 | what a round hashes is what each copied path holds after its own copy, eager or deferred |
| `CopyGate.JudgeRound` | dbabrain/backup_restore/copy_gate.py:282-315 | each pending file gets one attempt judged by its own reading, and stays pending exactly when that attempt is no match |
| `CopyGate.ScreenSources` | dbabrain/backup_restore/copy_gate.py:202-244 | which files go on to their target: source there, catalogued where that is asked, equal to what its backup recorded where that is checked |
| `CopyGate.CompareTargets` | dbabrain/backup_restore/copy_gate.py:246-263 | a target already equal is a match and is not copied; exactly the others become pending |
| `CopyGate.ProvenHoldsTheSource` | dbabrain/backup_restore/copy_gate.py:202-333 | a proven file's target, as it is left, reads with its source's checksum and size, and a verified catalogued source with what its backup recorded; a missing, mismatched or refused source never has its target written |
| `CopyGate.AttemptsAreAccounted` | dbabrain/backup_restore/copy_gate.py:263-326 | attempts are numbered from 1, at most retries + 1, only the last may match, and they decide the verdict; every attempt is one copy made |
| `CopyGate.SameBytesExactly` | dbabrain/backup_restore/copy_gate.py:106-113 | two readings are the same bytes exactly when both give a checksum, the checksums differ in case at most, and the sizes do not differ where both are given |
| `CopyGate.AttemptsAreCopies` | dbabrain/backup_restore/copy_gate.py:263-326 | attempt by attempt: its number, the content its copy left, an error exactly when the copier raised or nothing stands there, a match exactly when that content reads as the source, and the checksum and size it notes |
| `CopyGate.VerdictIsDecided` | dbabrain/backup_restore/copy_gate.py:202-263 | missing, refused, not what its backup recorded, or there already - the target reading with the source's checksum up to case and its size where both were read: each verdict exactly when, and every other file, and no other, is copied |
| `CopyGate.RunIsSound` | dbabrain/backup_restore/copy_gate.py:202-333 | after all rounds of all files every file found equal, copied or copied again has a target that reads with its source's checksum up to case and its size, and a source that is as recorded; a file with no attempt has its target as it was |
| `CopyGate.DeferredIsEager` | dbabrain/backup_restore/offload.py:317-338 | queuing a round's copies to travel before its hash changes no outcome and no content while the transport reports no failure |
| `CopyGate.FlushedEach` | dbabrain/backup_restore/offload.py:324-333 | a flush of distinct paths copies each queued path once and touches no other |
| `CopyGate.TargetHost.HashTargets` | dbabrain/backup_restore/offload.py:324-333 | a hash flushes everything queued first, and answers for exactly the paths that hold content |
| `CopyGate.TargetHost.Copy` | dbabrain/backup_restore/offload.py:320-322 | an eager copy writes its own path; a deferred one only joins the queue |
| `CopyGate.Summarize` | dbabrain/backup_restore/copy_gate.py:337-344 | the count of every verdict, and a run is proven exactly when each outcome is |
| `CopyGate.ConfirmOnTarget` | dbabrain/backup_restore/copy_gate.py:347-394 | parts the indexes into proven and a sorted remainder: proven exactly when what the target holds is what the backup recorded, the size disregarded for files hashed through one member |
| `CopyGate.ConfirmedExactly` | dbabrain/backup_restore/copy_gate.py:347-394 | confirmed exactly when the target reads as recorded, for a base backup, full or incremental and in any case, the size left out |
| `LocalCopy.CopyLocally` | dbabrain/backup_restore/copy_backup.py:838-891 | every selected file is reported once, with the status and the target content of its own rule; found = copied + replaced + skipped + failed; no file failed exactly when the gate finds every outcome proven |
| `LocalCopy.NotFailedIsProof` | dbabrain/backup_restore/copy_backup.py:894-914 | a file not reported failed has a target that, as the run leaves it, reads as its source or as its backup recorded |
| `LocalCopy.ReportedExactly` | dbabrain/backup_restore/copy_backup.py:885-914 | each status by its file: skipped when confirmed against the catalog or found there by the gate, fresh when the first copy matched, replaced when a later one did, failed in every other case |
| `LocalCopy.EveryReportIsCounted` | dbabrain/backup_restore/copy_backup.py:1484-1498 | the four status counts are all the reports, and the return code is 0 exactly when no file failed |
| `LocalCopy.Gate.Confirm` | dbabrain/backup_restore/copy_backup.py:128-141 | exactly the candidates whose target holds what the catalog recorded, each with its outcome |
| `LocalCopy.Gate.Copy` | dbabrain/backup_restore/copy_backup.py:143-164 | the files through the gate, their outcomes joined to the run's |
| `LocalCopy.GatedResults` | dbabrain/backup_restore/copy_backup.py:894-914 | one report per file, in order, from its own verdict |
| `Retention.ExpiryPlan` | dbabrain/backup_restore/offload.py:489-573 | the pass over lists and dictionaries returns every copy the rules name, once, and no other |
| `Retention.PlanDatabase` | dbabrain/backup_restore/offload.py:528-572 | one database's pass takes each of its copies exactly as often as the rules expire it |
| `Retention.SettleFull` | dbabrain/backup_restore/offload.py:560-572 | one full: its old dependents go, and it goes whole exactly when all of it and all it owns is old |
| `Retention.HangOn` | dbabrain/backup_restore/offload.py:541-559 | every diff and log hangs on the last full started at or before it, control files join their run |
| `Retention.GroupFulls` | dbabrain/backup_restore/offload.py:531-534 | the fulls of one database by the run that wrote them |
| `Retention.PlanIsClosed` | dbabrain/backup_restore/offload.py:509-573 | what is expired is past its own retention; a kept diff or log keeps its whole full; the newest chain, certificates and databases with no full lose nothing |
| `Retention.FullGoesWhole` | dbabrain/backup_restore/offload.py:557-572 | the files of one full, control file and spfile included, expire together or not at all |
| `Retention.RunGoesWhole` | dbabrain/backup_restore/offload.py:525-534 | in the files' own fields: two full-level files of one database with one recorded start, whenever each ended, or with none recorded and one end, go together or stay together; so does a control file, spfile or manifest with either |
| `Retention.DependentGoesExactly` | dbabrain/backup_restore/offload.py:541-572 | a diff or log goes exactly when it ended longer ago than its own kind is kept and some full of its database began after it ended |
| `Retention.FullGoesExactly` | dbabrain/backup_restore/offload.py:528-572 | a full goes exactly when a newer full of its database is there, every file of its run has outlived its stay, and so has every diff or log from its start to the next full's |
| `Retention.OthersGoExactly` | dbabrain/backup_restore/offload.py:541-572 | a control file, spfile or manifest goes exactly with a full of its run; a certificate never goes |
| `Retention.PassesCompose` | dbabrain/backup_restore/offload.py:489-573 | expiring at t1 and then planning the rest at t2 removes exactly what one plan at t2 removes |
| `Retention.PassesComposeWhateverStays` | dbabrain/backup_restore/offload.py:489-573 | however much of its plan a pass removed, the later plan of the rest is the later plan of all, less what went and less the control files and spfiles stranded without a full |
| `Retention.ChainsWholeExactly` | dbabrain/backup_restore/offload.py:509-573 | a partly refused pass leaves no diff or log without its full and no full in part exactly when nothing planned that stayed rests on anything that went |
| `Retention.ManyPassesAreOne` | dbabrain/backup_restore/offload.py:489-573 | any number of passes at growing moments leaves what the last alone would |
| `Retention.RepeatedPlanIsEmpty` | dbabrain/backup_restore/offload.py:489-573 | a second plan at one moment is empty |
| `Retention.PlanGrows` | dbabrain/backup_restore/offload.py:489-573 | the plan only grows with time |
| `Retention.OwnerStays` | dbabrain/backup_restore/offload.py:552-572 | a diff or log that survives a pass keeps its owner |
| `Retention.StartsLeft` | dbabrain/backup_restore/offload.py:560-572 | the fulls gone after a pass are exactly the releasable ones |
| `Retention.DatabasesApart` | dbabrain/backup_restore/offload.py:528-573 | a database's plan depends on no other database's copies |
| `Retention.PreCheckAgrees` | dbabrain/backup_restore/offload.py:683-697 | when no copy ended before the shortest non-zero retention the plan is empty |
| `Retention.PreCheckIsTight` | dbabrain/backup_restore/offload.py:683-697 | the bound asks for no more than it must: it is the shortest of the three retentions that are not for good, and none when all are |
| `Offload.EveryRunIsSafe` | dbabrain/backup_restore/offload.py:302-624 | over every sequence of backups - at a pruned row's path too - copy passes finished or broken off, release and expiry passes answered or not, checks, and foreign damage, each row keeps what its state promises of its bytes |
| `Offload.NothingIsLost` | dbabrain/backup_restore/offload.py:302-624 | while every expiry removal is answered and no backup takes the repository path of a copy that has not expired: a catalogued file not expired and not touched from outside on its server stands there or in the repository with its recorded checksum, up to case, and size; and a verified one is in the repository with its checksum whatever happened to its server |
| `Offload.LostExactly` | dbabrain/backup_restore/offload.py:302-624 | over every run, such a file is nowhere exactly when it is off its server and an expiry pass that named it took its copy without being told, or a pass wrote or emptied its path for another row and its bytes are not back |
| `Offload.AnUnansweredRemovalLosesAFile` | dbabrain/backup_restore/offload.py:601-623 | one run, from an empty catalog, that ends with a released file's only copy gone and its row still verified |
| `Offload.AReusedPathLosesAFile` | dbabrain/db/backup_catalog.py:252-254 | one run from an empty catalog, nothing damaged and no removal at all: a backup at a released file's path is copied over its only copy, and the old row is still verified |
| `Offload.AReusedPathLosesACopy` | dbabrain/backup_restore/offload.py:583-623 | the same run and one answered expiry pass: naming the old row, it takes the newer file's copy, whose row is still verified |
| `Offload.VerifiedOverAnother` | dbabrain/backup_restore/offload.py:135-156 | whatever the transport, a copy pass that verifies a file at the path of another row's copy, recorded with another checksum, leaves that other file out of the repository and its row as it was |
| `Offload.NewestChainStays` | dbabrain/backup_restore/offload.py:383-442 | in every run, a file not touched from outside after whose end no full of its database ever began - a full, a base backup or an RMAN level 0, whatever became of it - is on its server as recorded |
| `Offload.DeletedOnlyOnProof` | dbabrain/backup_restore/offload.py:383-442 | from any state, a pass takes a file off its server only by a release of a verified row that is no base backup directory, that a present full of its database began after, and whose copy reads just then with the recorded checksum and size |
| `Offload.DirectoriesStay` | dbabrain/backup_restore/offload.py:392-395 | no pass takes off its server, or changes there, a path that only full or incremental base backup rows have, and a release leaves such rows as they were |
| `Offload.ReleasedExactly` | dbabrain/backup_restore/offload.py:383-442 | file by file: an asked-for file, no directory and older than a present full of its database, is deleted when its copy reads as recorded, and pruned when the delete is answered gone; it has failed when its copy reads otherwise; every other row is as it was, and a path leaves the server exactly when such a file of it is answered gone or taken unanswered |
| `Offload.CopiedExactly` | dbabrain/backup_restore/offload.py:302-374 | a file of a copy pass is verified only with its copy reading as the file on the server reads and, where recorded, with the recorded checksum; it is missing exactly when it was not there, and its target is then as it was; nothing else of its row changes |
| `Offload.MarkedExactly` | dbabrain/backup_restore/offload.py:349-374 | a row is verified exactly when it has files and each was found equal, copied or copied again, and failed otherwise; its source becomes missing exactly when it has files and each was |
| `Offload.CheckedExactly` | dbabrain/backup_restore/backup.py:744-770 | a checked file not pruned: gone, it is pruned past its server's retention and missing otherwise; there, it is present exactly with its recorded checksum up to case; rows not checked, the server and the repository are as they were |
| `Offload.DependentPlannedExactly` | dbabrain/backup_restore/offload.py:576-600 | in the rows' own fields: an expiry pass names a diff or log exactly when its copy is verified, has outlived its stay, and a verified full of its database began after it |
| `Offload.ExpiryTakesThePlan` | dbabrain/backup_restore/offload.py:576-624 | an expiry pass expires only what its plan names, and of the plan's copies with a path of their own exactly those the repository host reports gone |
| `Offload.ExpiryPassesCompose` | dbabrain/backup_restore/offload.py:576-624 | after a first pass with any answers, a second plans exactly what it alone would, less what the first expired and less what it stranded |
| `Offload.ExpiryPassesAgree` | dbabrain/backup_restore/offload.py:576-624 | two passes leave the catalog as the later alone would exactly when, row by row, the later alone expires what the earlier did, nothing it stranded, and of the rest what the second did |
| `Offload.ApartPassesAgree` | dbabrain/backup_restore/offload.py:576-624 | where each verified copy has its own path and the later pass is answered alike: exactly when it is told gone of all the earlier expired and of nothing it stranded |
| `Offload.AnsweredPassesAgree` | dbabrain/backup_restore/offload.py:576-624 | where the passes are answered and agree on the catalog, the repository too ends as the later alone leaves it |
| `Offload.ExpiryKeepsChainsExactly` | dbabrain/backup_restore/offload.py:598-624 | a pass keeps every chain of the repository whole exactly when nothing it planned and did not expire rests on anything it expired |
| `Offload.CopyStepEach` | dbabrain/backup_restore/offload.py:349-374 | a copy pass over files with targets of their own marks each row by its own file alone, and changes no other row and no path that is not its target |
| `Offload.BrokenKeepsSafe` | dbabrain/backup_restore/offload.py:341-351 | a copy pass that raises keeps every row's promise, whatever it left on its own targets |
| `Offload.MarkRows` | dbabrain/backup_restore/offload.py:349-374 | a row is verified exactly when it has files and every one is proven, its source missing exactly when it has files and every one was |
| `Offload.GoneCopies` | dbabrain/backup_restore/offload.py:602-623 | a copy may be marked expired exactly when the host answered its file gone, or, of a directory it could list, every member; unanswered, only empty listings while there was nothing to ask |
| `Offload.OffloadPass.OffloadEntry` | dbabrain/backup_restore/offload.py:302-380 | the pass over rows and items, their targets apart, is the copy step; a run that raises fails every row, keeps what it wrote and drops its queue |
| `Offload.OffloadPass.ReleaseSources` | dbabrain/backup_restore/offload.py:383-442 | candidates, re-hash and deletions together are the release step |
| `Offload.OffloadPass.PruneRepository` | dbabrain/backup_restore/offload.py:576-624 | plan, one entry per path to delete, removals answered or not, and the mark of the row each path stands for, together are the expiry step |
| `Offload.FloorsAgree` | dbabrain/db/backup_catalog.py:995-1003 | the floor read from the present fulls is the newest full ever written exactly when some full that began then is present |
| `Offload.CheckKeepsSafe` | dbabrain/backup_restore/backup.py:744-770 | a check of any files, which marks each missing, pruned by the server's own retention, mismatched or present again and leaves a pruned one pruned, keeps every row's promise |
| `RepositoryPaths.PlaceExactly` | dbabrain/backup_restore/offload.py:135-156 | letter by letter: a file whose path goes on with a slash after the backup folder, for a Windows path in any case, is placed by the rest of its path; any other by its database, else its type, else "files", and its name |
| `RepositoryPaths.CopyPathExactly` | dbabrain/backup_restore/offload.py:149-156 | the copy lies at its place in the folder its server's id names under the repository's folder, trailing slashes aside; an absolute place or id is a path of its own |
| `RepositoryPaths.OneCopyPerFile` | dbabrain/backup_restore/offload.py:135-156 | two files, whatever their paths, have one copy path exactly when they have one place, or a place with a doubled slash is the path of the other's copy |
| `RepositoryPaths.OnePlacePerFile` | dbabrain/backup_restore/offload.py:135-156 | below the backup folder two files have one place exactly when they are spelled alike from there on |
| `RepositoryPaths.LinuxCopiesAreDistinct` | dbabrain/backup_restore/offload.py:135-156 | for paths that spell the backup folder as it is: one copy path exactly when the paths differ in slashes alone, or by a doubled slash that crosses onto the other's copy; otherwise the gate's targets are distinct |
| `RepositoryPaths.CopyLiesUnderItsServer` | dbabrain/backup_restore/offload.py:149-156 | resolved component by component, a copy's path stays in its server's folder exactly when its place never climbs out of it - or, for a place with a doubled slash, when it goes through that folder and never climbs out from there; a place without ".." or a doubled slash always does |
| `RepositoryPaths.PlainNamesStay` | dbabrain/backup_restore/offload.py:149-156 | components without ".." never climb out |
| `RepositoryPaths.WhereTheMappingFails` | dbabrain/backup_restore/offload.py:135-156 | concrete paths: a doubled slash leaves the server's folder or lands on another file's copy, ".." leads out, a backslash in a Linux name collides |
| `RepositoryPaths.ClimbingOut` | dbabrain/backup_restore/offload.py:149-156 | a place "../x" leads out of every server's folder |
| `RepositoryPaths.CommonEnding` | dbabrain/backup_restore/offload.py:462-465 | the counting loop finds how many components the two paths end in together: those agree, each path keeps its first, and one more would not agree |
| `RepositoryPaths.RepositorySource` | dbabrain/backup_restore/offload.py:445-479 | one folder answers, or which of the three refusals: no copies, another folder's, more than one place |
| `RepositoryPaths.SourceExactly` | dbabrain/backup_restore/offload.py:445-479 | the answer is the one every copy that says anything says; refused exactly when there are no copies, when none says anything, and when two say different things |
| `RepositoryPaths.AnswerIsTheMappedFolder` | dbabrain/backup_restore/offload.py:459-471 | the answer for a folder at or below the root is its mapped folder however far the paths happen to agree above it |
| `RepositoryPaths.AnswersExactly` | dbabrain/backup_restore/offload.py:459-472 | which folders a copy answers for, exactly: those at or below its root without what the two roots end in together |
| `RepositoryPaths.BesideExactly` | dbabrain/backup_restore/offload.py:459-472 | some folder not at or below the backup folder is answered for exactly when that folder and the copies' folder end in one component |
| `RepositoryPaths.SourceIsWhereTheMappingPuts` | dbabrain/backup_restore/offload.py:445-479 | for a folder at or below the backup folder the source found is where the mapping put its copies |
| `RepositoryPaths.MappingAndBack` | dbabrain/backup_restore/offload.py:149-156 | the round trip: the repository folder found for copies made by the mapping is the mapping of that folder |
| `RepositoryPaths.AFolderBesideItAnswersToo` | dbabrain/backup_restore/offload.py:459-471 | a family of folders beside the backup folder that are answered for |
| `StagingCleanup.ObsoleteOnly` | dbabrain/backup_restore/delete_backup.py:111-173 | the anchors kept in dictionaries yield exactly the obsolete files of the folder as a set, so in any listing order |
| `StagingCleanup.KindFoldersAreOneChain` | dbabrain/backup_restore/delete_backup.py:61-108 | a folder that only says the kind does not part a chain, and a file in such a folder is a full only in the one for fulls |
| `StagingCleanup.KindByName` | dbabrain/backup_restore/delete_backup.py:83-108 | in any case of its names: a log by the ending .trn, a log folder or the marker _log_; of the others a differential by its folder or a marker; otherwise a full |
| `StagingCleanup.ChainByFolder` | dbabrain/backup_restore/delete_backup.py:61-82 | a file's chain is named by its folder, in any case, unless the folder only says a kind |
| `StagingCleanup.ObsoleteExactly` | dbabrain/backup_restore/delete_backup.py:111-173 | a file is obsolete exactly when a full of its chain overtakes it - later, or, for a full, of the same moment and a later path; where its chain has no full, when any full does; and always where there is none |
| `StagingCleanup.ChainIsKept` | dbabrain/backup_restore/delete_backup.py:111-173 | each chain with a full keeps exactly its newest full and whatever is at or after it |
| `StagingCleanup.AnchorStays` | dbabrain/backup_restore/delete_backup.py:143-173 | deleting obsolete files moves no anchor, the folder's own fallback included |
| `StagingCleanup.DeletingMovesNothing` | dbabrain/backup_restore/delete_backup.py:111-173 | what remains after deleting any obsolete files is exactly as obsolete as before |
| `StagingCleanup.CleaningConverges` | dbabrain/backup_restore/delete_backup.py:219-245 | cleaning at t1 then t2 leaves what cleaning at t2 leaves, and a second run deletes nothing |
| `StagingCleanup.StagingFolder.CleanUp` | dbabrain/backup_restore/delete_backup.py:313-413 | every file of the entry is reported, and is within retention exactly when there is one and `now < stamp + retention`, still needed when old enough and not obsolete over the whole folder, and otherwise deleted unless the run is dry or the host will not; exactly the deleted files leave the folder, and in a dry run none |
| `StagingCleanup.CleanUpRemovesTheDoomed` | dbabrain/backup_restore/delete_backup.py:313-413 | an unobstructed cleanup leaves the folder without the aged obsolete files of the entry, which ties it to the convergence |
| `StagingCleanup.StagingFolder.Scan` | dbabrain/backup_restore/delete_backup.py:313-360 | one reading of the folder: every file, the entry's aged ones, and its younger ones |
| `ChainSelection.FindFull` | dbabrain/backup_restore/restore_find.py:236-268 | the newest full at or before the moment: by its stamp, then by its lower-case path; none exactly when none is that old |
| `ChainSelection.FindDiff` | dbabrain/backup_restore/restore_find.py:483-534 | the newest differential between the full and the moment: by its stamp, then by its path, on Windows in lower case; none exactly when there is none |
| `ChainSelection.FindLogs` | dbabrain/backup_restore/restore_find.py:537-599 | the shortest run of the logs from the baseline whose last reaches the moment; an error exactly when none does, naming the last log's moment, or that there is none |
| `ChainSelection.LogsFromExactly` | dbabrain/backup_restore/restore_find.py:553-580 | the logs searched: every listed one no older than the baseline, as often as it is listed, and no other, by stamp and then by path as the target compares paths |
| `ChainSelection.RunIsTheShortest` | dbabrain/backup_restore/restore_find.py:582-599 | the run is the one prefix only whose last log reaches the bound |
| `ChainSelection.ReachableExactlyByALogAtTheMoment` | dbabrain/backup_restore/restore_find.py:590-597 | whether the logs from a baseline reach the moment does not depend on the baseline |
| `ChainSelection.LogsThrough` | dbabrain/backup_restore/restore_by_id.py:239-264 | the prefix through the first log finished after the moment; a log without a finish never ends it |
| `ChainSelection.SelectionsAgree` | dbabrain/backup_restore/restore_by_id.py:239-264 | the two selections differ exactly when a log is stamped at the moment and another follows the first, and then on a strictly increasing list by one |
| `ChainSelection.SelectChain` | dbabrain/backup_restore/restore_find.py:236-599 | the newest full and the newest differential, ordered as `FindFull` and `FindDiff` order them, and the shortest run of logs from the differential, or else from the full; full <= diff <= moment; a chain exists exactly when a full is at or before the moment and a log at or after it |
| `ChainSelection.SelectedChainRestoresTheMoment` | dbabrain/backup_restore/restore_database.py:420-438 | a selected chain, restored over any connection, never passes the moment; gapless and with no stale row, a run that comes back stands at the very moment |
| `LogRestore.Target.RunRestoreLog` | dbabrain/backup_restore/restore_database.py:594-710 | the loop is the specified run: rejected logs passed over, lost ones looked up, any other failure ends it, and no log applied is a failure |
| `LogRestore.Target.RestorePointInTime` | dbabrain/backup_restore/restore_database.py:420-438 | the logs and the recovery together: the database never stands past the moment, and an unbroken chain with no stale row, if the run comes back, is online at the very moment |
| `LogRestore.Target.RunQuery` | dbabrain/backup_restore/restore_sqlcmd.py:304-340 | up to three dispatches, a further one only while the batch never started |
| `LogRestore.SentExactly` | dbabrain/backup_restore/restore_sqlcmd.py:304-340 | a batch is sent on until one starts and three times at most; the last one's fate decides what the database and the history are left as and what is answered |
| `LogRestore.Target.TryLog` | dbabrain/backup_restore/restore_database.py:618-681 | one log's answer, with the resume check for a lost one |
| `LogRestore.StepExactly` | dbabrain/backup_restore/restore_database.py:618-681 | once a batch of it started or three did not, one log is applied, passed over as too late or too early, or - lost, or torn before it started - taken as restored, each exactly when: answered and covering the position; answered and starting after it; answered and ending by it; nothing running and the newest history row its own |
| `LogRestore.SentOnce` | dbabrain/backup_restore/restore_sqlcmd.py:304-340 | at most three batches, each but the last never started, and they run the log at most once |
| `LogRestore.NeverPastTheMoment` | dbabrain/backup_restore/restore_database.py:594-710 | over every connection, returning or not, the database never stands past the moment, nor after recovery |
| `LogRestore.AppliedIsAChain` | dbabrain/backup_restore/restore_database.py:594-710 | the logs a run applied are taken once each, in order, a gapless chain from the start position, and exactly the rows its history gained |
| `LogRestore.GapEndsTheChain` | dbabrain/backup_restore/restore_database.py:653-667 | with logs in order of their starts, nothing after a log rejected as too recent applies |
| `LogRestore.RestoredToTheMoment` | dbabrain/backup_restore/restore_database.py:420-438 | a contiguous chain reaching the moment: if the run comes back the recovered database stands at the moment |
| `LogRestore.ComesBackExactlyWhenALogApplies` | dbabrain/backup_restore/restore_database.py:691-697 | over a connection that answers, the run comes back exactly when some log applies at the start position |
| `LogRestore.MistakenExactlyByAStaleRow` | dbabrain/backup_restore/restore_database.py:1212-1370 | a lost log can be confirmed that never ran exactly when the newest history row before the run is one of its logs and no log before it applies |
| `LogRestore.AStaleRowAtWork` | dbabrain/backup_restore/restore_database.py:1246-1262 | a concrete run that returns successfully ten units short of the moment asked for |
| `LogRestore.NoStaleRowNoMistake` | dbabrain/backup_restore/restore_database.py:1319-1342 | without such a row, a lost log is taken as restored only when it ran |
| `RestorePlan.PlanSqlServer` | dbabrain/backup_restore/restore_by_id.py:308-365 | the plan is the key step, each database's steps in order, the check and the warning; or the first database's error |
| `RestorePlan.PlannedFromTheListing` | dbabrain/backup_restore/restore_by_id.py:316-353 | each planned database's steps: its listed full, its listed differential if any, and the listing of the logs after the differential, where it says when it finished, else after the full - all of it with no moment, else through the first log finished after the moment |
| `RestorePlan.PlannedInOrder` | dbabrain/backup_restore/restore_by_id.py:308-358 | the plan is those steps database by database in the order stated, each beginning with its full |
| `RestorePlan.PlannedExactly` | dbabrain/backup_restore/restore_by_id.py:316-335 | there are steps exactly when every database has a full and an unbroken chain |
| `RestorePlan.PlanRunsExactly` | dbabrain/backup_restore/restore_by_id.py:316-358 | run on a server that restores by position and STOPAT, the plan ends with every database online where its chain lands and checked after every restore, exactly when every chain lands and no full meets a database online that it may not overwrite |
| `RestorePlan.PlanRecoversEachOnce` | dbabrain/backup_restore/restore_by_id.py:337-353 | such a plan brings each database online by one step: it is online after no earlier step and after every later one, and no later step touches it |
| `RestorePlan.RecoveredOnceAndLast` | dbabrain/backup_restore/restore_by_id.py:337-339 | whatever list of steps runs: a database it leaves online was brought online by one step, and no later step touches it |
| `RestorePlan.OneDatabase` | dbabrain/backup_restore/restore_by_id.py:337-353 | for every shape of chain, one database's steps leave it online exactly when its logs rise and the last spans the moment, and otherwise fail or leave it restoring; they fail on a database online that may not be overwritten |
| `RestorePlan.StoppedPastTheLastLog` | dbabrain/backup_restore/restore_by_id.py:349-354 | a moment past the last listed log: the chain holds, the plan is made, and its database stays restoring |
| `RestorePlan.LandsByItsLastLog` | dbabrain/backup_restore/restore_by_id.py:327-328 | where backups finish no earlier than they end, a chain under a moment lands exactly when its logs rise and the last reaches the moment |
| `RestorePlan.RollExactly` | dbabrain/common/restorestep/sqlserver.py:219-266 | the logs of one step over an unbroken list: online at the moment exactly when they land, else failed or restoring at their end |
| `RestorePlan.NamesFound` | dbabrain/backup_restore/restore_by_id.py:310-312 | every non-empty name found, once, in order |
| `RestorePlan.SqlServerChainBreak` | dbabrain/lib/integrity.py:457-505 | the first break of a chain, read off the headers |
| `RestorePlan.LogsHoldExactly` | dbabrain/lib/integrity.py:484-504 | with the headers given, no break exactly when the first log past the anchor's end starts by it and each later one where the one before ended; the break is a late start exactly when that first log starts after it |
| `RestorePlan.ChainHoldsExactly` | dbabrain/lib/integrity.py:457-505 | with its headers given a chain holds exactly when a differential names its full's checkpoint as its base, the first log that ends after the anchor starts by its end, and each later one starts where the one before ended |
| `RestorePlan.ChainChosen` | dbabrain/backup_restore/restore_by_id.py:317-335 | a planned chain is of the listings' full and of the differential after it, only its last log may have finished after the moment, and it holds |
| `RestorePlan.WalkSteps` | dbabrain/backup_restore/restore_by_id.py:779-834 | the walk raises exactly when some step, at its place, does not pass - an executed one that failed, or a check that failed or could not be used; staged files are pruned only when none did, after every step was run in order |
| `Workflow.RunWorkflow` | dbabrain/backup_restore/cli.py:1399-1692 | a restore starts exactly when every entry's copy passed; the check, the cleanup and success each exactly when all before them did, for every entry; phases never interleave, and a phase starts only after every entry had its turn in each before it |
| `Workflow.CleanupRestsOnProof` | dbabrain/backup_restore/cli.py:1485-1629 | a run that writes cleans up exactly when its preflight passed, it was not to copy only, it has entries, and every one passed as above |
| `Workflow.EntryProvenExactly` | dbabrain/backup_restore/cli.py:1485-1626 | an entry passes every phase before the cleanup exactly when its copy came back with every file fresh, replaced or skipped; its restore came back, and every named database's last attempt came successful, dry or skipped; and its check was not asked, or listed every database usable, or none |
| `Workflow.CleanedUpUncheckedExactly` | dbabrain/backup_restore/cli.py:1578-1626 | an entry's check holds the cleanup back exactly when it throws or lists an unusable database; whatever else it answers, the entry is cleaned up as if it had not been checked |
| `Workflow.UncheckedIsCleanedUp` | dbabrain/backup_restore/cli.py:1578-1626 | an entry that could not be checked, or a failed check that lists no database, does not hold the cleanup back |
| `Workflow.CountStatuses` | dbabrain/backup_restore/cli.py:1982-2001 | success, failed and skipped are each the databases of their kind over all entries - success and dry run, failed and check failed, skipped - together all considered |
| `Workflow.FailedDatabases` | dbabrain/backup_restore/cli.py:1961-1979 | the names that stop the run, entry by entry; none exactly when every database of every entry is acceptable |
| `Workflow.StopsTheRunExactly` | dbabrain/backup_restore/cli.py:1927-1979 | a name is among those that stop the run exactly when its last attempt threw, in the check or before it, or came failed or check failed: success, a dry run and a skip are accepted and nothing else is |
| `Workflow.RestoreServer` | dbabrain/backup_restore/restore_database.py:951-1038 | throws with no result, and in a point-in-time restore at the first database that throws; otherwise statuses by name and the verdict over them |
| `Workflow.FailedExactly` | dbabrain/backup_restore/restore_database.py:1009-1038 | the verdict is failed exactly when some named database's last result did not succeed |
| `Workflow.AnswersByName` | dbabrain/backup_restore/restore_database.py:1003-1038 | a name's status is its last attempt's: the one it came with, failed when it threw, check failed when the check of it threw |
| `Workflow.AnswersInAll` | dbabrain/backup_restore/restore_database.py:1003-1038 | a server throws exactly when it has no database or, in a point-in-time restore, one that threw; otherwise a dry run is a dry run, and the verdict is failed exactly when some name's last attempt threw, in the check or before it, or came skipped, failed or check failed |
| `Workflow.NeverGreener` | dbabrain/backup_restore/restore_database.py:1030-1038 | with distinct names the verdict is failed exactly when some database did not succeed |
| `Workflow.GreenerExactly` | dbabrain/backup_restore/restore_database.py:1009-1038 | some outcomes make an entry greener than its databases exactly when two share a name or one has none |
| `Workflow.GreenerThanItsDatabases` | dbabrain/backup_restore/restore_database.py:1009-1013 | two results of one name: the later success hides the failure |
| `Workflow.PerDatabaseIsTheLast` | dbabrain/backup_restore/restore_database.py:1009-1013 | each name holds its last result |

## Left out

- The catalog's records of attempts and run files, event announcements, logging, progress and sanitising: they follow the decisions modelled here.
- SSH, WinRM, SMB, sqlcmd and container commands: each is an oracle answer or an effect on the modelled store.
- Real hashing, name and date parsing: contents, hashes and whole-second moments are values.
- The same copy target stated twice in one batch: the code does not check it, and the batch refines the per-file rule only for distinct targets.
- A hash call that raises inside the gate: it ends the run and no verdict is given; `Offload` has the broken pass as a step.
- Retention.ExpiryPlan: does not model the order of the returned list or the texts that say why a row is kept; it is exact on which rows are returned and how often.
- Offload.OffloadPass.OffloadEntry: a base backup's directory is one unit with one checksum; `Offload.MarkRows` models a row with several files.
- Offload.OffloadPass.PruneRepository: a base backup's folder on the repository is one path here; `Offload.GoneCopies` models the listing and the answers for its files.
- Replayability of logs older than the newest chain in the repository: diffs and logs age one by one, so only their full is kept.
- StagingCleanup.StagingFolder.CleanUp: the order of the reported results, and the folder guards before a cleanup, are not modelled.
- Which staged files are the entry's own (`delete_backup.py:199-216`) is a predicate the cleanup is given, and outer blanks of a path are not stripped.
- The selectors of the latest chain and of all databases' fulls at once (`restore_find.py:75-132`, `271-317`, `396-480`): the same maxima and filters without a moment, or per folder.
- ChainSelection.SelectedChainRestoresTheMoment: takes a log to end at the moment it is stamped with, and restores from the baseline's stamp.
- LogRestore.Target.RunRestoreLog: a restore still running on the server after the run has been refused may move the database later; what it then does is outside the run.
- RestorePlan.PlanSqlServer: database names are compared as spelled, the certificate import is not modelled, and a header value that is not given is judged by nobody: the results about the plan's end are for listings that give them.
- The PostgreSQL and Oracle planners, the share and SFTP variants of the copy, and the download staging of `copy_backup.py`: the same gate behind other transports.
- Workflow.RunWorkflow: preflight is one answer; catalog phases, summaries and messages are not modelled, nor outputs without a status per database.
- Scheduling, stop and run races, and `run_offloads`' choice of entries.
