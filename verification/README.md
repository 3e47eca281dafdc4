# Verification of the data-safety engine

A Dafny model of the parts of this Dropbox client that decide when local bytes may be unlinked, when a remote path may
be overwritten or deleted, and how an interrupted transfer resumes, with proofs of what those parts promise.
`dafny verify dfyconfig.toml` checks everything.

Conventions that hold throughout:

- Every durable operation (database, disk, network) answers `Ok`, `Err` or `Crash` (`Common.Reply`). `Crash` means the
  process died around the operation, which may or may not have taken effect. A method stops at the first `Crash`, so
  what it ensures on all its exits holds at every crash point.
- `Common.Environment` gives the answers; its ghost counter `faults` counts what went wrong, and changes by the user, and `crashes` how often the process died. The
  server saying no to a request it cannot accept is nothing that went wrong.
  `env.faults == old(env.faults)` reads "if nothing failed and the user kept still", and turns safety contracts into
  progress contracts.
- The user is a method (`UserActs`) that replaces the file tree by any other. Where it is called is where the proofs
  allow concurrent edits.
- Ghost records (`unlinked`, `destroyed`, `losses`, `overwritten`) say what the code did and `visits` what the user did.
  The contracts tie them to the disk: between any two visits, and since the last, it changed by what is on record only.
- Where the code does not meet a promise, the exact condition under which it does is proved (in a lemma
  `...ExactlyWhen...` or a method's `ensures`), beside a lemma with an input for which it fails.

| file | models |
|---|---|
| `common.dfy`, `text.dfy`, `sidecar_name.dfy`, `depth_order.dfy` | replies and the environment that gives them, path strings and their comparison form, `.cloudsc` names, deepest-first order |
| `upload_session.dfy` | the resumable chunked upload against a server that loses answers and expires sessions |
| `dehydrate.dfy` | freeing one file, with the startup sweep that repairs an interrupted swap |
| `folder_collapse.dfy` | freeing a folder while the user works in it |
| `exclusion.dfy` | applying selective sync to the local copy |
| `refused_move.dfy` | a refused move as an upload that owes a deletion |
| `first_upload.dfy`, `conflict_name.dfy` | the first-upload guard, collisions and the names of conflicted copies |
| `download.dfy` | what a download keeps before it overwrites |
| `deferred_delete.dfy` | a remote deletion verified again before it is applied |
| `delete_worker.dfy`, `delete_roots.dfy`, `grace_map.dfy` | the debounced delete worker, its minimal roots, the materialization grace window |
| `path_scope.dfy`, `content_hash.dfy` | selective-sync zones, the streaming content hash |
| `sidecars.dfy` | `.cloudsc` evidence of a rename and the rewrite that carries it |
| `watcher_batches.dfy` | watcher batches the sync gate refused |
| `sweep.dfy` | the listing sweep of one folder |

Assumptions, each visible in the model:

- SHA-256 (FIPS 180-4) is any function from bytes to bytes, and the content hash any function from bytes to strings.
  No proof assumes that it has no collisions; "the same content" is said by hash where the code compares hashes.
- Length and modification time identify the bytes of an uploaded file (`UploadSession.Dropbox.Knows`). A file that is
  written gets a size and time it never had at that path (`Exclusion.Pass.seen`).
- The comparison form acts on path segments: it keeps every `/`, makes no new one and neither makes nor loses an empty
  segment (`Text.SegmentFold`).
- Database calls are transactions with the effect their SQL states; active jobs are unique by kind and target.
- When the exclusion pass starts and its note names the filter, no excluded remote row exists: nothing writes one while
  the path is excluded (`cloudsc_ops.rs` lines 1767 to 1770).
- `exists` and `symlink_metadata` answer truthfully; a directory lists its entries.

## Model

| member | source | states |
|---|---|---|
| `UploadSession.Uploader.UploadViaSession` | apps/desktop/src-tauri/src/dropbox_transfer.rs:746-910 | one attempt: whatever the network answers or loses and wherever the process dies, every new commit at the destination is the snapshot of the file it was given, the checkpoint left behind is resumable and counts nothing as sent that the server has not, and the attempt ends; if no request is lost, falsely answered or refused, no session expires and no local operation fails, but for three transient failures without effect, it commits from whatever checkpoint earlier attempts left, by the one restart if the session is lost, and without a new session if the old one can go on |
| `UploadSession.Uploader.CheckpointedBytesAreOnDropbox` | apps/desktop/src-tauri/src/dropbox_transfer.rs:732-751 | wherever an attempt stopped, a session that still lives starts with the bytes of the file up to the offset of the checkpoint |
| `UploadSession.Uploader.RunOnUnchangedFile` | apps/desktop/src-tauri/src/dropbox_transfer.rs:746-910 | any number of failing, crashing and resumed attempts on a file that does not change commit nothing but exactly its bytes, and if nothing goes wrong each of them commits |
| `UploadSession.Uploader.RunAttempts` | apps/desktop/src-tauri/src/dropbox_transfer.rs:746-910 | attempts on a file that changes in between commit only snapshots of the versions it had, never a mixture of two |
| `UploadSession.Uploader.Round` | apps/desktop/src-tauri/src/dropbox_transfer.rs:787-907 | a round that goes on either used the one restart or strictly advanced the offset within the captured length; if nothing goes wrong, a session the server has at this offset goes on or commits, and any other is replaced once by a fresh one |
| `UploadSession.Uploader.RestartSession` | apps/desktop/src-tauri/src/dropbox_transfer.rs:700-721 | a restart opens a session for the same file, rewinds to 0 and records it before anything is sent; a checkpoint it changes is that of the new session at 0 |
| `UploadSession.Uploader.OpenSession` | apps/desktop/src-tauri/src/dropbox_transfer.rs:757-782 | a checkpoint is resumed exactly when it has the same length and modification time, without a request and with the file positioned at its offset; otherwise a fresh session is recorded |
| `UploadSession.Uploader.Send` | apps/desktop/src-tauri/src/dropbox_transfer.rs:834-906 | at every exit, a crash included, the checkpoint moved only past an append the server has and was cleared only after a commit; an append or finish that is done did so; if nothing goes wrong, a request the server can accept does what it is for and any other shows the session is lost, which only an answer that calls it invalid does |
| `UploadSession.Dropbox.RetryTransient` | apps/desktop/src-tauri/src/dropbox_transfer.rs:103-132 | at most max(1, attempts) calls; only transient errors are retried; a transient failure is given up only when the calls are used up; if nothing but transient failures without effect goes wrong, and not in every call, the last answer is an honest one |
| `UploadSession.TotalBackoffIs` | apps/desktop/src-tauri/src/dropbox_transfer.rs:114-126 | k calls sleep k*(k-1) seconds in total |
| `UploadSession.StepKeepsInv` | apps/desktop/src-tauri/src/dropbox_transfer.rs:361-493 | no request, lost answer or expired session lets a session buffer be anything but a prefix of the file it was opened for; a finish commits the snapshot |
| `UploadSession.FinishCompletesSnapshot` | apps/desktop/src-tauri/src/dropbox_transfer.rs:498-500 | wherever an attempt stands, the final chunk completes exactly the snapshot |
| `UploadSession.NextOpIsGood` | apps/desktop/src-tauri/src/dropbox_transfer.rs:799-876 | premature end of file finishes the session, the last chunk finishes it, and every append sends at least one byte short of the captured length |
| `UploadSession.SnapshotOfUnchangedFile` | apps/desktop/src-tauri/src/dropbox_transfer.rs:746-910 | a file of the captured length is committed whole |
| `UploadSession.SnapshotOfTruncatedFile` | apps/desktop/src-tauri/src/dropbox_transfer.rs:799-832 | a file truncated after its length was captured is committed as it is now |
| `UploadSession.GrowthIsIgnoredExactlyWhen` | apps/desktop/src-tauri/src/dropbox_transfer.rs:731-745 | growth beyond the captured length is left out exactly when there is none or the length is a positive multiple of the chunk size |
| `UploadSession.GrowthIsNotIgnored` | apps/desktop/src-tauri/src/dropbox_transfer.rs:731-745 | a one-byte file that grew by a byte is committed with the new byte, against the comment |
| `UploadSession.FileHandle.FillBuffer` | apps/desktop/src-tauri/src/dropbox_transfer.rs:788-797 | however reads are split, a filled buffer holds exactly the next chunk of the file |
| `Dehydrate.SyncFolder.DehydrateFileAtomic` | apps/desktop/src-tauri/src/cloudsc_ops.rs:1186-1254 | at every exit, a crash at any step included, the original bytes are at the path or the aside or a placeholder stands at the path; a tracked path is present; the next scan finds no new deletion; without failures the placeholder replaces the file and the row is back; after one failure the file and its row are back, or the placeholder stands and only lacks its row |
| `Dehydrate.SyncFolder.DehydrateOneFile` | apps/desktop/src-tauri/src/cloudsc_ops.rs:1107-1146 | the file goes only if its bytes hash to the remote row and its `.cloudsc` entry is complete; a crash or rollback at any step leaves no tracked path without a file; after one failure the file stays as it was with its row; if nothing fails, it goes exactly when it is synced |
| `Dehydrate.SyncFolder.UnlinkBesideEntry` | apps/desktop/src-tauri/src/cloudsc_ops.rs:1135-1145 | a file that would not go loses its entry and is tracked again |
| `Dehydrate.SyncFolder.IsFullySynced` | apps/desktop/src-tauri/src/cloudsc_ops.rs:1067-1077 | true exactly when the path is tracked, known remotely, and the bytes on disk hash to the remote row |
| `Dehydrate.SyncFolder.RecoverStrayAsides` | apps/desktop/src-tauri/src/cloudsc_ops.rs:1270-1326 | whatever fails, the effect is that of recovering some of the listed asides; without a crash, of all but those whose own operation failed, as many as failed; it counts those it handled |
| `Dehydrate.RecoveryRestores` | apps/desktop/src-tauri/src/cloudsc_ops.rs:1256-1269 | after any interrupted swap, a sweep that reaches the aside ends with the path present: the original bytes or the placeholder |
| `Dehydrate.RecoverAllKeepsSafe` | apps/desktop/src-tauri/src/cloudsc_ops.rs:1256-1269 | whichever asides the sweep reaches before it fails, no safe file is lost |
| `Dehydrate.RecoverAllKeepsPresent` | apps/desktop/src-tauri/src/cloudsc_ops.rs:1270-1326 | the sweep never changes or removes a path that is not an aside |
| `Dehydrate.NoAsideLeftExactlyWhen` | apps/desktop/src-tauri/src/cloudsc_ops.rs:1270-1326 | a complete sweep leaves no aside exactly when every aside whose original name is an aside too is visited before that one |
| `Dehydrate.AsideOfAsideMayStay` | apps/desktop/src-tauri/src/cloudsc_ops.rs:1295-1323 | an aside of an aside, visited after it, makes the sweep end with an aside |
| `FolderCollapse.SyncFolder.DehydrateFolderCollapse` | apps/desktop/src-tauri/src/cloudsc_ops.rs:1400-1526 | with the user changing the tree in between, at every exit: between any two of his changes the disk lost nothing but files on record with their bytes (each verified against the remote row and untracked, or a `.cloudsc` entry) and directories of the folder; the next scan propagates only deletions from before or made by the user; no row outside the folder went; a rejection in phase 1 changes nothing; on success every freed file is one phase 1 was to free and covered by the one folder entry (and then nothing is left under the folder) or by its own, the answer lists just those, and only they lost their rows; while the user keeps still, a file that will not go costs only itself, and folder rows go only once all files are gone; if nothing fails, every file phase 1 was to free is gone with its row, whatever passes phase 1 succeeds unless a directory has the name of an entry, and where all of the folder can go it does collapse |
| `FolderCollapse.SyncFolder.Enumerate` | apps/desktop/src-tauri/src/cloudsc_ops.rs:1416-1458 | phase 1 changes nothing; when it passes, every file it planned is synced and the plan is exactly what the listing holds |
| `FolderCollapse.SyncFolder.DeleteVerified` | apps/desktop/src-tauri/src/cloudsc_ops.rs:1465-1482 | a file is verified again, untracked and only then unlinked: it is gone with its row and on record, or tracked and untouched, unless more than one thing fails |
| `FolderCollapse.SyncFolder.TakeAway` | apps/desktop/src-tauri/src/cloudsc_ops.rs:1416-1516 | it frees only files the listing allows to go; while the user keeps still, no more of them are left than things failed; if nothing fails and phase 1 passes, all of them go, even if the folder cannot be emptied |
| `FolderCollapse.SyncFolder.DeleteFiles` | apps/desktop/src-tauri/src/cloudsc_ops.rs:1460-1487 | phase 2 reports exactly the files it took off the disk, and only they lost their rows; while the user keeps still, each of the others cost a failure of its own; without failures all files and their rows go and nothing else |
| `FolderCollapse.SyncFolder.RemoveRest` | apps/desktop/src-tauri/src/cloudsc_ops.rs:1489-1516 | with the user acting before every removal, no file but an entry goes, and the folder counts as emptied only when nothing is left at or under it; folder rows are gone before any directory is |
| `FolderCollapse.SyncFolder.RemoveDirs` | apps/desktop/src-tauri/src/cloudsc_ops.rs:1502-1509 | empty-only removal takes no file, whatever the user puts there meanwhile, and in deepest-first order it empties a tree of directories |
| `FolderCollapse.SyncFolder.DegradeToPerFile` | apps/desktop/src-tauri/src/cloudsc_ops.rs:1531-1536 | on success each freed file has its own entry |
| `FolderCollapse.SyncFolder.UntrackFoldersSubtree` | apps/desktop/src-tauri/src/cloudsc_ops.rs:1540-1548 | on success no folder row at or under the folder is left and every other row stays |
| `FolderCollapse.PlanIs` | apps/desktop/src-tauri/src/cloudsc_ops.rs:1419-1458 | the plan holds exactly the deletable files, `.cloudsc` children and directories of the listing |
| `FolderCollapse.DeepestIsEmpty` | apps/desktop/src-tauri/src/cloudsc_ops.rs:1502-1509 | when only listed directories are left, the deepest one is empty |
| `DepthOrder.SortedDeepestFirst` | apps/desktop/src-tauri/src/cloudsc_ops.rs:1506-1506 | the sort keeps every directory and puts the deeper ones first |
| `Exclusion.Pass.ApplyExclusions` | apps/desktop/src-tauri/src/cloudsc_ops.rs:1621-1830 | for any tree, index, filter, failure and user edits, between any two of the edits the disk only lost what is on record: verified bytes of files out of scope, entries of Excluded paths and of files in Ancestor folders, junk that was the last thing in its directory, and empty directories of the Excluded zone, none of it ignored, held by an ignored directory or needed by a job; nothing unlinked is tracked, no file row of a Synced or busy path is touched, and what is reported as removed is gone unless the user put it back; a complete pass reports every file out of scope (as busy exactly if a job needs it), drops a row only if its file was kept, unlinked, in error or not on disk, and leaves no row out of scope but of busy paths and of what was on disk and not kept; if nothing failed, every such entry and every synced file out of scope is gone, every other file is reported as kept, all of it is reported, and an excluded directory is left only if a job needs it or more than junk is left in it; without a filter or a root neither disk nor index is touched |
| `Exclusion.Pass.OnlyOutOfScopeVanished` | apps/desktop/src-tauri/src/cloudsc_ops.rs:1621-1830 | whatever vanished from the disk between two edits of the user was out of scope and, if it was a file of the user, held exactly what the remote row says and is not tracked; an entry stood for something Excluded or for a file in an Ancestor folder; but for junk, no job needed it and no rule ignored it or a directory that holds it |
| `Exclusion.Pass.Walk` | apps/desktop/src-tauri/src/cloudsc_ops.rs:1655-1739 | every file of the full listing that is out of scope and not in an ignored directory ends up removed, kept or in error, or busy if a job needs it, although whole subtrees are skipped; every row that went belongs to a file that was kept, unlinked, in error or not on disk; if nothing fails, only entries it could not read are errors, and the entries of files in Ancestor folders are gone or busy; whatever fails, only a crash keeps the walk from its end |
| `Exclusion.SkipMissesNothing` | apps/desktop/src-tauri/src/cloudsc_ops.rs:1673-1685 | beneath a Synced folder without an exclude entry nothing is out of scope, as a file or as the target of a sidecar |
| `Exclusion.Pass.RemoveExcludedFile` | apps/desktop/src-tauri/src/cloudsc_ops.rs:1853-1945 | each file is unlinked or reported, with the user writing in every window but the last; if nothing fails, a synced file goes with its row, any other is kept and (unless online-only) to lose its row, and there is no error |
| `Exclusion.Pass.UntrackAndUnlink` | apps/desktop/src-tauri/src/cloudsc_ops.rs:1917-1945 | a file whose stamp changed since it was verified is kept, untouched and untracked (or an error if untracking failed); one that would not go is an error and tracked again, unless that fails too |
| `Exclusion.Pass.Verify` | apps/desktop/src-tauri/src/cloudsc_ops.rs:1889-1915 | a file that is not synced is kept and to lose its row; a synced one is kept only as an error; one that has its earlier stamp again after the check holds the bytes that were hashed |
| `Exclusion.Pass.KeptIsUntracked` | apps/desktop/src-tauri/src/cloudsc_ops.rs:1752-1766 | after a complete pass no row names a kept file in any spelling, but for online-only files and busy paths |
| `Exclusion.Pass.RowsLeftAre` | apps/desktop/src-tauri/src/cloudsc_ops.rs:1752-1766 | of the files a complete pass met out of scope, only online-only ones and those with an error keep a row, but for busy ones |
| `Exclusion.Pass.DropRemoteRows` | apps/desktop/src-tauri/src/cloudsc_ops.rs:1767-1793 | after it worked, the note that the excluded remote rows are gone is there exactly when they are; it is never there before |
| `Exclusion.Pass.DropLocalRows` | apps/desktop/src-tauri/src/cloudsc_ops.rs:1752-1766 | what is left names a path in scope, a busy one, or something that was not kept and was on disk when the pass looked; a row goes only if its file was kept, unlinked, in error or not on disk |
| `Exclusion.Pass.RemoveExcludedDir` | apps/desktop/src-tauri/src/cloudsc_ops.rs:1797-1818 | a directory goes only when it is excluded and empty and no folder row at or beneath it is left; a busy one is reported, one that went is reported as removed, one left empty as an error, and one that still holds something not at all |
| `Exclusion.Pass.RemoveExcludedDirs` | apps/desktop/src-tauri/src/cloudsc_ops.rs:1795-1818 | deepest first and empty-only: if nothing failed, no collected directory is left with nothing or only junk in it but busy ones, since taking one away never empties one done before it; when it worked, none but busy ones has a folder row left at or beneath it |
| `Exclusion.OthersStayNonEmpty` | apps/desktop/src-tauri/src/cloudsc_ops.rs:1795-1818 | taking away a directory and its junk never makes one that was done before it an empty one |
| `Exclusion.DeepestFirstIsChildrenFirst` | apps/desktop/src-tauri/src/cloudsc_ops.rs:1796-1796 | sorted by depth, every directory comes after the ones it holds |
| `RefusedMove.NoDebtIsForgotten` | apps/desktop/src-tauri/src/dropbox_transfer.rs:1478-1713 | over any run every debt a job ever had is still owed with its revision, or a settlement discharged it: a deletion of just that revision was queued while Dropbox held the destination, or the destination had collided |
| `RefusedMove.EveryDeleteIsOfTheRefusedRevision` | apps/desktop/src-tauri/src/dropbox_transfer.rs:1557-1674 | over any run every new delete job is sent against the revision its source had when its move was refused, and was enqueued while Dropbox held the destination |
| `RefusedMove.EveryDeleteHasEvidence` | apps/desktop/src-tauri/src/dropbox_transfer.rs:1642-1674 | over any run every delete job was enqueued by the settlement of a debt for that source and revision in a state in which Dropbox held the destination of the debt |
| `RefusedMove.FreshEvidenceIsAboutTheUsersBytes` | apps/desktop/src-tauri/src/dropbox_transfer.rs:1745-1779 | in that state Dropbox held the bytes the user has at the destination exactly when its local row, if any, described them; without a row an online-only destination is no evidence |
| `RefusedMove.EveryDebtIsForAFile` | apps/desktop/src-tauri/src/dropbox_transfer.rs:1510-1581 | over any run every debt comes from the refusal of a file move and names the revision the index then had of the source: a directory move never creates one |
| `RefusedMove.Client.RederiveRefusedMove` | apps/desktop/src-tauri/src/dropbox_transfer.rs:1478-1611 | a directory move is only recorded and never owes anything; for a file the local row goes only once an upload owes its deletion, the remote row only if Dropbox has no source; the debt is taken unless the upload owes another source, and then the pair is recorded |
| `RefusedMove.Client.SettleOwedSourceDeletion` | apps/desktop/src-tauri/src/dropbox_transfer.rs:1642-1713 | at every exit the jobs are as before, or the deletion is queued on evidence and the debt owed or cleared, or the debt is cleared after a collision; if nothing fails, a debt is cleared exactly on evidence or a collision, and on evidence with a deletion of its revision queued; with a fresh row a source goes only when Dropbox has the bytes of the user |
| `RefusedMove.Client.DestinationHoldsTheBytes` | apps/desktop/src-tauri/src/dropbox_transfer.rs:1745-1779 | a positive answer means the remote row equals the local row, or without one the hash of a readable, resident file |
| `RefusedMove.HoldsMeansBytesExactlyWhenFresh` | apps/desktop/src-tauri/src/dropbox_transfer.rs:1745-1779 | the positive answer is about the bytes on disk exactly when the local row, if any, describes them |
| `RefusedMove.StaleRowHolds` | apps/desktop/src-tauri/src/dropbox_transfer.rs:1749-1751 | with a stale row the answer is positive although the edited bytes are not on Dropbox |
| `RefusedMove.WithDebtOwes` | apps/desktop/src-tauri/src/storage/db.rs:1626-1671 | an upload that owes another source keeps that debt; otherwise the active upload for the path owes this one afterwards, and active jobs stay unique |
| `RefusedMove.Client.EnqueueUploadThenDelete` | apps/desktop/src-tauri/src/storage/db.rs:1626-1671 | the caller learns whether the debt was taken, and only an upload that owes another source refuses it |
| `RefusedMove.Client.PayDebt` | apps/desktop/src-tauri/src/dropbox_transfer.rs:1653-1674 | the debt is cleared only with a delete job for its source and revision in existence |
| `RefusedMove.Client.FinishUpload` | apps/desktop/src-tauri/src/sync_pipeline.rs:3413-3444 | a failed upload keeps its debt; a finished one is settled before it is marked done, and if nothing fails the debt is gone exactly on evidence or a collision; nothing else changes |
| `RefusedMove.Client.Run` | apps/desktop/src-tauri/src/dropbox_transfer.rs:1478-1713 | every run of the methods, with crashes, collisions, retries and the world moving on, is a run of the steps the lemmas are about |
| `FirstUpload.Uploader.Attempt` | apps/desktop/src-tauri/src/dropbox_transfer.rs:951-1140 | while the guard applies, a send happens only if Dropbox holds nothing at the path or the very hash this client recorded before an earlier send; only that path is written, and no local content is lost; if nothing fails and the user keeps still, the file is sent, moved aside or left alone exactly as the guard decides, and one that is not there is untracked or marked for a new look and not sent; the remote row then says what Dropbox has, and the file stays tracked unless it collided; the index of other paths is not touched |
| `FirstUpload.Uploader.Run` | apps/desktop/src-tauri/src/dropbox_transfer.rs:951-1140 | over any run of attempts, lost answers, edits, scans and writes by others, a guarded upload replaces only content this client had indexed at that path, and the folder keeps every content the user left in it |
| `FirstUpload.Uploader.Consider` | apps/desktop/src-tauri/src/dropbox_transfer.rs:1062-1098 | if nothing fails, it goes on exactly when the file is to be sent and moves it aside exactly when it collides; what Dropbox has already is in the index then |
| `FirstUpload.Uploader.SendAndRecord` | apps/desktop/src-tauri/src/dropbox_transfer.rs:1100-1124 | the remote row is as it was or describes what Dropbox has, and if nothing fails it does as far as the answer did; a lost answer is recognised on the retry exactly when the row described the bytes that were sent |
| `FirstUpload.LostAnswerMayCollide` | apps/desktop/src-tauri/src/dropbox_transfer.rs:1100-1109 | a file edited between the scan and the send, whose answer was lost, and edited again, collides with the own upload |
| `FirstUpload.Uploader.ResolveCollision` | apps/desktop/src-tauri/src/dropbox_transfer.rs:1259-1291 | the local file is at a name nothing had, the path is released and untracked, and the conflict names both |
| `FirstUpload.Uploader.RecordIdenticalRemote` | apps/desktop/src-tauri/src/dropbox_transfer.rs:1149-1174 | the remote row is written under the spelling the index knows, so one Dropbox file never gets two rows |
| `FirstUpload.Uploader.Vanished` | apps/desktop/src-tauri/src/dropbox_transfer.rs:972-1036 | a vanished file whose upload never landed is untracked, one known remotely is marked for a new look; nothing is sent |
| `FirstUpload.Uploader.ConfirmUploadLanded` | apps/desktop/src-tauri/src/storage/db.rs:1274-1314 | the remote row and the disarmed marker appear together or not at all |
| `FirstUpload.MoveKeepsContents` | apps/desktop/src-tauri/src/dropbox_transfer.rs:1264-1270 | renaming to an unused name keeps every content as often as it was there |
| `ConflictName.UniqueConflictedName` | apps/desktop/src-tauri/src/path_util.rs:747-780 | the counting loop ends with the first proposed name that is not taken, and it has the extension of the file |
| `ConflictName.CandidateIsInjective` | apps/desktop/src-tauri/src/path_util.rs:763-774 | different attempts propose different names |
| `ConflictName.ExtensionMeans` | apps/desktop/src-tauri/src/path_util.rs:747-773 | the extension is what follows the last dot, if something comes before that dot, and there is none otherwise |
| `ConflictName.CandidateReads` | apps/desktop/src-tauri/src/path_util.rs:755-773 | a proposed name is the stem, the note with the stamp, a counter from the second attempt on, and the extension |
| `ConflictName.DecimalIsTheNumeral` | apps/desktop/src-tauri/src/path_util.rs:763-774 | the counter is the decimal numeral of the attempt without leading zeros |
| `ConflictName.CandidateKeepsExtension` | apps/desktop/src-tauri/src/path_util.rs:751-773 | every proposed name keeps the extension of the file |
| `Download.Downloader.DownloadFile` | apps/desktop/src-tauri/src/dropbox_transfer.rs:2633-2679 | at every exit, local bytes that were replaced were not at risk or have a conflicted copy beside them; if nothing fails, the old content is in no copy and not what the remote row said exactly when nothing protected it, and what was at risk and in no copy gets one under a new name, with a conflict that names both; nothing else is touched; when done the index describes the file and it owes no upload |
| `Download.Downloader.PreserveLocal` | apps/desktop/src-tauri/src/dropbox_transfer.rs:2574-2614 | after it, bytes at risk have a copy; it only adds files, and copies only what no copy holds yet; a copy it made is beside the file under a new name and the conflict names both |
| `Download.Downloader.FailingRetries` | apps/desktop/src-tauri/src/dropbox_transfer.rs:580-613 | retries of a failing download copy the same bytes at most once |
| `Download.Downloader.ConflictCopyExists` | apps/desktop/src-tauri/src/dropbox_transfer.rs:590-613 | found exactly when a conflicted copy beside the file has that content, if everything can be read |
| `Download.NeverIndexedIsUnprotected` | apps/desktop/src-tauri/src/dropbox_transfer.rs:528-546 | a file that was never indexed is overwritten without a copy |
| `DeferredDelete.Client.VerifyAndDelete` | apps/desktop/src-tauri/src/dropbox_transfer.rs:2342-2463 | the file is unlinked only if the lookup says gone and it is absent, online-only or equal to both index hashes; a failed lookup changes nothing; a diverged file leaves a conflict and an upload; a file Dropbox still has goes up only over the version it was made on; the job goes last |
| `DeferredDelete.Client.FileUnchangedSinceDeltaCheck` | apps/desktop/src-tauri/src/dropbox_transfer.rs:2481-2532 | true exactly when nothing would be lost; an unreadable file is an error |
| `DeferredDelete.Client.KeepExisting` | apps/desktop/src-tauri/src/dropbox_transfer.rs:2349-2386 | an upload is enqueued exactly when the remote is the synced one and the local row differs |
| `DeferredDelete.Client.KeepDiverged` | apps/desktop/src-tauri/src/dropbox_transfer.rs:2407-2450 | wherever it stops, a dropped job means the conflict, the upload and the dropped remote row are there |
| `DeferredDelete.Client.DeleteLocalFile` | apps/desktop/src-tauri/src/dropbox_transfer.rs:2155-2170 | rows go only after the file is gone |
| `DeferredDelete.Client.Run` | apps/desktop/src-tauri/src/dropbox_transfer.rs:2342-2463 | over any run of retries and changes in between, every file ever unlinked, all of them on record, held what both index hashes said |
| `DeleteWorker.EveryRunKeepsInv` | apps/desktop/src-tauri/src/cloud_filter.rs:1047-1152 | in every interleaving at most one thread owns the flag, pushed events are buffered, in flight, flushed or dropped as multisets, and no buffered event is stranded |
| `DeleteWorker.BufferedMeansLiveWorker` | apps/desktop/src-tauri/src/cloud_filter.rs:1047-1152 | outside the claim and release windows, a buffer that holds something has a live worker |
| `DeleteWorker.PushedEventsGetFlushed` | apps/desktop/src-tauri/src/cloud_filter.rs:1085-1152 | once every pusher is done, the buffered events are one worker's next batch, at most four of its own steps away |
| `DeleteWorker.EveryPushedPathIsAccountedFor` | apps/desktop/src-tauri/src/cloud_filter.rs:1047-1224 | in every interleaving every path ever pushed is in the buffer or in a worker's hands, was dropped with its batch, or it or a folder above it has a delete job unless enqueueing that failed |
| `DeleteWorker.NextKeepsOneOwner` | apps/desktop/src-tauri/src/cloud_filter.rs:1066-1075 | no step lets two threads own the flush flag |
| `DeleteWorker.NextKeepsConserved` | apps/desktop/src-tauri/src/cloud_filter.rs:1047-1152 | no step loses or doubles an event |
| `DeleteWorker.IdleWorkerRetires` | apps/desktop/src-tauri/src/cloud_filter.rs:1085-1152 | a worker that finds nothing more retires within four of its own steps and leaves the flag clear |
| `DeleteRoots.EveryEntryHasARoot` | apps/desktop/src-tauri/src/cloud_filter.rs:1162-1172 | every entry equals or lies under some root |
| `DeleteRoots.RootsAreIncomparable` | apps/desktop/src-tauri/src/cloud_filter.rs:1162-1172 | no two distinct roots are nested |
| `DeleteRoots.RootsAreNeeded` | apps/desktop/src-tauri/src/cloud_filter.rs:1162-1172 | any part of the batch that covers it contains every root |
| `DeleteRoots.RootsDeleteTheSameTree` | apps/desktop/src-tauri/src/cloud_filter.rs:1162-1172 | deleting the roots recursively leaves the tree that deleting every entry leaves |
| `DeleteRoots.DeleteQueue.FlushPendingDeletes` | apps/desktop/src-tauri/src/cloud_filter.rs:1185-1270 | one job per root and the whole batch untracked, except where an operation failed; every entry is covered by a job or by a failed one; the job of a file is sent against the revision the index has, every other against none, and other jobs stay as they are |
| `GraceMap.SameAnswer` | apps/desktop/src-tauri/src/cloud_filter.rs:154-167 | pruning and overwriting never change an answer: the map answers like the whole log of arms |
| `GraceMap.ArmingRefines` | apps/desktop/src-tauri/src/cloud_filter.rs:134-147 | arming keeps the youngest arm of each prefix and forgets only arms older than the window |
| `GraceMap.MaterializationGrace.InMaterializationGrace` | apps/desktop/src-tauri/src/cloud_filter.rs:175-183 | true exactly when some arm in the whole history covers the path on a `/` boundary and is younger than the window |
| `PathScope.ScopeMeans` | apps/desktop/src-tauri/src/path_util.rs:509-618 | in terms of the lists as written, component by component: what an exclude entry names and all below it is Excluded, whatever is included; else what an include entry names and all below it is Synced, and everything if none names anything; else only what lies above an include entry is an Ancestor |
| `PathScope.ExcludedIsClosed` | apps/desktop/src-tauri/src/path_util.rs:597-618 | whatever lies within an Excluded path is Excluded |
| `PathScope.AboveSynced` | apps/desktop/src-tauri/src/path_util.rs:597-618 | every folder above a Synced path is Synced or an Ancestor |
| `PathScope.ExcludedBeneathIsExact` | apps/desktop/src-tauri/src/path_util.rs:643-652 | a Synced folder has an Excluded path within it exactly when `excluded_beneath` holds |
| `PathScope.OnlyExcludesBeneathSynced` | apps/desktop/src-tauri/src/path_util.rs:597-652 | what is not Synced within a Synced folder is Excluded, and only an exclude entry can make it so |
| `PathScope.RootIsNotExcluded` | apps/desktop/src-tauri/src/path_util.rs:597-618 | the root is Synced without an include list and an Ancestor with one |
| `PathScope.ChildIsWithin` | apps/desktop/src-tauri/src/path_util.rs:468-471 | joining names below a folder stays within it, whatever slashes and case they have |
| `PathScope.LoadUnconfirmed` | apps/desktop/src-tauri/src/path_util.rs:538-557 | one lookup answers whether any marked path lies at or below a folder |
| `Text.SplitFold` | apps/desktop/src-tauri/src/path_util.rs:290-292 | folding keeps path segments apart: the segments of the fold are the folds of the segments |
| `ContentHash.HashFile` | apps/desktop/src-tauri/src/path_util.rs:688-743 | however reads split the file, the nested loops yield the hash of the concatenated block hashes |
| `ContentHash.ConsumeChunk` | apps/desktop/src-tauri/src/path_util.rs:704-718 | one read of any size keeps the digests of the full blocks and the open block apart |
| `ContentHash.BlockDivisionIsUnique` | apps/desktop/src-tauri/src/path_util.rs:670-687 | there is one division into full blocks and a shorter last one, of 4 MiB each, so the definition is the reference chunking |
| `ContentHash.BlocksDivide` | apps/desktop/src-tauri/src/path_util.rs:670-687 | the blocks concatenate to the file, and all but the last have 4 MiB |
| `Sidecars.ClassifySidecars` | apps/desktop/src-tauri/src/cloudsc.rs:100-120 | the three counters say nothing, all or mismatch exactly as the set of sidecars does |
| `Sidecars.DirsHoldingSidecarsInto` | apps/desktop/src-tauri/src/cloudsc.rs:154-171 | without duplicates, exactly the directories strictly under the root that have evidence |
| `Sidecars.EvidenceMeansPointsInto` | apps/desktop/src-tauri/src/cloudsc.rs:174-190 | a directory has evidence exactly when a sidecar strictly inside it points into the folder |
| `Sidecars.AnyPointsIntoMeansEvidence` | apps/desktop/src-tauri/src/cloudsc.rs:145-150 | any sidecar points into the folder exactly when the walked root has evidence |
| `Sidecars.RebaseRemotePath` | apps/desktop/src-tauri/src/cloudsc.rs:203-218 | the appending loop computes the segment-wise rebase |
| `Sidecars.RebaseKeepsTail` | apps/desktop/src-tauri/src/cloudsc.rs:203-218 | a sidecar that names the old folder plus its tail names, rebased, the new folder plus the same tail, up to folding |
| `Sidecars.RebasedExactlyWhenWithin` | apps/desktop/src-tauri/src/cloudsc.rs:203-218 | a path is rebased exactly when it names the old folder or something in it, up to folding, and the folder is not the root |
| `Sidecars.FolderItselfIsRebased` | apps/desktop/src-tauri/src/cloudsc.rs:203-218 | the old folder itself becomes the new one |
| `Sidecars.OthersAreNotRewritten` | apps/desktop/src-tauri/src/cloudsc.rs:224-250 | a sidecar that names nothing in the old folder is left as it was |
| `Sidecars.RootIsNotRebased` | apps/desktop/src-tauri/src/cloudsc.rs:203-218 | the root, however it is written, is never rebased although everything points into it |
| `Sidecars.RewriteCarriesEvidence` | apps/desktop/src-tauri/src/cloudsc.rs:224-250 | n sidecars that all pointed into the old folder all point into the new one after a rewrite without failures |
| `Sidecars.SidecarTree.RewriteSidecarsAfterMove` | apps/desktop/src-tauri/src/cloudsc.rs:224-250 | the failures counted are the writes that failed; without any, every listed sidecar is rebased; and the count is of those that changed; no other file is touched |
| `Sidecars.RebasedLeavesOldFolder` | apps/desktop/src-tauri/src/cloudsc.rs:224-250 | when neither folder lies in the other, nothing rewritten still points into the old one |
| `Sidecars.RewriteLeavesOldFolder` | apps/desktop/src-tauri/src/cloudsc.rs:224-250 | then a directory whose sidecars all pointed into the old folder has no evidence for it after the rewrite |
| `Sidecars.RebasedInsideOldStillPoints` | apps/desktop/src-tauri/src/cloudsc.rs:224-250 | moved inside itself, every rewritten sidecar still points into the old folder |
| `Sidecars.RebasedOntoAncestorPointsExactlyWhen` | apps/desktop/src-tauri/src/cloudsc.rs:224-250 | moved onto an ancestor, a rewritten sidecar points into the old folder exactly when its tail starts with the dropped components |
| `Sidecars.RebasedOntoAncestorMayPoint` | apps/desktop/src-tauri/src/cloudsc.rs:224-250 | such sidecars exist for every folder moved onto an ancestor |
| `WatcherBatches.EveryRunAccountsForBatches` | apps/desktop/src-tauri/src/fs_watcher.rs:185-269 | in every interleaving one gated worker at most, the held set bounded and made of whole batches, and every batch held, delivered, in flight, refused whole or failed |
| `WatcherBatches.EverythingHasACause` | apps/desktop/src-tauri/src/fs_watcher.rs:185-269 | a batch is refused only where its new paths do not fit, delivered only by processing that worked under the gate, and lost only when the processing of a watcher thread failed, never by a failing tick |
| `WatcherBatches.WinnerDeliversEverything` | apps/desktop/src-tauri/src/fs_watcher.rs:211-269 | who finds the gate free delivers its own batch with all that was put off and frees the gate, in four of its own steps |
| `WatcherBatches.FailingTickPutsBack` | apps/desktop/src-tauri/src/sync_pipeline.rs:2898-2923 | a tick whose processing fails puts back all it took, if there is room, and frees the gate |
| `WatcherBatches.PendingSet.RememberDropped` | apps/desktop/src-tauri/src/fs_watcher.rs:97-117 | a batch is accepted exactly when its new paths fit, then held whole, else nothing changes |
| `WatcherBatches.RememberIsRememberDropped` | apps/desktop/src-tauri/src/fs_watcher.rs:97-117 | the step of the state machine accepts and holds exactly what the method does for the paths of the batches |
| `WatcherBatches.PendingSet.TakePending` | apps/desktop/src-tauri/src/fs_watcher.rs:120-128 | every held path is returned once and the set is empty |
| `WatcherBatches.CountNewIsGrowth` | apps/desktop/src-tauri/src/fs_watcher.rs:102-105 | for a batch without duplicates the count is what the set would grow by |
| `WatcherBatches.Redeliver` | apps/desktop/src-tauri/src/fs_watcher.rs:242-258 | the deferred paths join the batch without duplicates and its own paths come first |
| `Sweep.EverySafeChildIsRepresented` | apps/desktop/src-tauri/src/cloudsc_ops.rs:385-420 | every Synced child with a safe name, file or folder, is on disk after a sweep, unless it was a file taken for a stale sidecar |
| `Sweep.EntryStaysExactlyWhenListed` | apps/desktop/src-tauri/src/cloudsc_ops.rs:395-405 | an entry on disk stays exactly when the listing shows, at that name, something Synced or a folder that leads to an include |
| `Sweep.NewEntriesAreOfSyncedChildren` | apps/desktop/src-tauri/src/cloudsc_ops.rs:405-475 | what is new is the entry, of its own kind, of a Synced child with a safe name |
| `Sweep.ChildNameIsLast` | apps/desktop/src-tauri/src/cloudsc_ops.rs:360-395 | the child is named by the last component of its path |
| `Sweep.RepresentedExactlyWhen` | apps/desktop/src-tauri/src/cloudsc_ops.rs:360-575 | after a sweep a wanted child is represented exactly when it was not a file the sweep takes for a stale sidecar |
| `Sweep.SweepIsStableExactlyWhen` | apps/desktop/src-tauri/src/cloudsc_ops.rs:360-575 | a second sweep changes nothing exactly when the folder has, for no wanted child without an entry, a file of that name that looks like the entry of a child not kept |
| `Sweep.ListedFileMayBeRemoved` | apps/desktop/src-tauri/src/cloudsc_ops.rs:556-575 | a listed file named `y.cloudsc`, with no `y` kept, is removed by one sweep and gets an entry by the next |
| `Sweep.TwoSweepsAreStable` | apps/desktop/src-tauri/src/cloudsc_ops.rs:360-575 | from any folder, two sweeps reach a fixed point with every wanted child represented |
| `Sweep.SweepTouchesOnlySidecars` | apps/desktop/src-tauri/src/cloudsc_ops.rs:360-575 | only files named as sidecars of children not kept go; everything else stays as it is; what is new is the entry of a wanted child |
| `Sweep.NoStaleSidecars` | apps/desktop/src-tauri/src/cloudsc_ops.rs:556-575 | no sidecar is left whose folded target is not kept |
| `Sweep.NothingToAddExactlyWhen` | apps/desktop/src-tauri/src/cloudsc_ops.rs:422-446 | materializing adds nothing exactly when every wanted child is represented |
| `Sweep.LocalFolder.SweepPages` | apps/desktop/src-tauri/src/cloudsc_ops.rs:111-157 | a listing that fails on any page removes nothing; without failures the folder becomes the sweep of all pages; the answer counts the entries it created |
| `Sweep.LocalFolder.Prune` | apps/desktop/src-tauri/src/cloudsc_ops.rs:556-575 | only stale entries are removed, and all of them but those that would not go |

## Left out

- HTTP, tokens, OAuth, longpoll, notifications, tray, progress events and logging are not part of this model; a network
  call is an unconstrained answer.
- Windows calls, the registry, package identity and shell integration are not part of this model; a native placeholder is
  a kind of node, and creating one either works or changes nothing.
- The React front end, `commands.rs` and `models.rs` are not part of this model. Some commands call the pipeline without
  the sync gate, so mutual exclusion is stated for the gated entry points only.
- Rename correlation, the scan, delta collapsing and the SQL of `db.rs` are not part of this model.
- The JSON and binary encoding of `.cloudsc` files: a sidecar is readable with its path, or unreadable.
- Unicode normalization and case mapping: an abstract comparison form stands for them. Lookups on disk are byte-exact,
  so a case-insensitive volume is not modelled.
- The hexadecimal text of hashes, backoff tables, tier labels, argument parsing and response classifiers.
- `is_ignored_local_path` and the user's globs are one arbitrary predicate; `safe_join`'s path rules are one too.
- The cleanup of a folder Dropbox no longer has (`prune_gone_dir`), ancestor pruning, ranged hydration reads and the
  parsing of the prefix lists.
- WatcherBatches.EverythingHasACause: a watcher batch whose processing fails is logged and not held again, as in the
  code; only a failing tick puts its paths back.
- A poisoned mutex, and a panic inside a flush that enqueued part of its batch: the whole batch counts as dropped.
- A worker thread that cannot be started: the flag would stay set without a worker.
- An own-process delete completion that consumes a stale user marker.
- More than 2^32 conflicted copies of one file.
- UploadSession.GrowthIsIgnoredExactlyWhen: the comment at line 731 of `dropbox_transfer.rs` says growth beyond the
  captured length is ignored. The final read can pick it up, so the code was followed and the exact condition is stated.
- UploadSession.Uploader.UploadViaSession: the file is read as one version per attempt; edits while an attempt reads are
  not modelled.
- FolderCollapse.SyncFolder.DehydrateFolderCollapse: a degraded collapse does not rewrite the `.cloudsc` children it had
  already removed, so nothing is said of those; a file with a `.cloudsc` name is removed or overwritten by its name,
  whatever it holds; the user does not act between the second verification of a file and its unlinking, nor between the
  last look at the folder and the writing of the entries.
- Exclusion.Pass.ApplyExclusions: the user does not act between the last stamp check and the unlink; `.DS_Store` files
  and files with a `.cloudsc` name are removed by name; a list of paths stands for the messages of the report, and which
  kept files are logged is not modelled; a path is busy by one byte-exact prefix rule.
- Dehydrate.SyncFolder.DehydrateOneFile: an entry that was written before the untracking failed stays beside the file, as
  in the code; the user does not act between the verification and the unlink.
- Dehydrate.RecoveryRestores: a user's own file that ends in the aside suffix is taken for an aside, as in the code.
- RefusedMove.HoldsMeansBytesExactlyWhenFresh: the code asks the local row first, so a stale row can license the deletion
  of a source whose edited bytes are not on Dropbox yet; the condition is stated and the code kept.
- RefusedMove.Client.Run: what Dropbox holds is known through the remote row only; uploads, scans and deltas change the
  index arbitrarily, but not within one settlement; removing finished jobs from the list is not modelled.
- FirstUpload.Uploader.Attempt: other clients do not write between the lookup and the upload, which is sent without a
  revision precondition; hand-over of a file deleted during its upload is not modelled.
- FirstUpload.Uploader.Run: once the first upload has landed the guard no longer applies, and an ordinary upload
  overwrites; nothing is claimed for those.
- Download.Downloader.DownloadFile: an edit between the check and the atomic replacement is not modelled; a file that was
  never indexed is overwritten, as in the code.
- DeferredDelete.Client.VerifyAndDelete: a lookup that wrongly says "gone" is believed; the user does not act between the
  check and the unlink.
- Sidecars.RewriteCarriesEvidence: holds for every folder but the root, which `rebase_remote_path` never rebases.
- Sidecars.RebasedLeavesOldFolder: needs that the new folder is no ancestor of the old one either; the exact condition
  for that case is a lemma of its own.
- Sweep.RepresentedExactlyWhen: a listed real file that is itself named `y.cloudsc` is removed when no `y` is kept; the
  condition is stated and the code kept. The Windows branches of the sweep are not modelled.
- GraceMap.SameAnswer: the clock is monotone.
