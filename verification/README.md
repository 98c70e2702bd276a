# Vantyx: verified core

Vantyx is an access gateway: people reach devices ("targets") through a browser terminal, and the
gateway decides who may reach what, records the commands typed, moves files and keeps its own
database. This project models the parts of it whose correctness no finite set of tests settles and
proves what they guarantee, for every input, every interleaving or every crash point:

| file | subject |
|---|---|
| `CommandLine.dfy` | the PTY line tracker: an incremental escape-sequence lexer driving a one-line editor, with Go's 64-bit overflow |
| `RecoveryCodes.dfy` | recovery-code consumption by compare-and-swap |
| `Enrolment.dfy` | beginning and confirming a second factor |
| `Restore.dfy` | staged database restore, with a crash or an error at any file operation |
| `TransferJobs.dfy` | the transfer-job protocol: worker handle, stored row, `Cancel`, trimming, deletion, restart |
| `TransferHistory.dfy` | the job table: filters, composite-cursor paging, history trimming |
| `GroupPath.dfy` | the "/"-hierarchy of groups |
| `Like.dfy` | SQLite `LIKE` and the escaping of its operands |
| `Paging.dfy` | list windows, chunked lookup, the keyset walk over targets |
| `Access.dfy` | the access relation in both directions, checks, expiry |
| `GroupTree.dfy` | the group tree served to a user, page by page |
| `Invitations.dfy` | whom inviting a group reaches |
| `GroupStore.dfy` | group deletion with cascades and other writers, moving targets |
| `AuditRing.dfy` | the audit ring buffer and paging through it while it grows |
| `OidcSync.dfy` | group reconciliation at OIDC login |
| `FreshId.dfy` | slugs, path normalisation and the search for a free id |
| `Order.dfy`, `Basics.dfy` | ordered listings of finite sets, shared by all paging; `Option` and `Take` |

Code that changes state step by step is modelled by classes and methods, each proved equal to a
function of its inputs or its old state; the main results are lemmas about those functions.
SQL statements are atomic and tables are sets or maps of rows. File operations, database errors,
clocks, TOTP validity and iteration orders are parameters or nondeterministic choices.

`dafny verify dfyconfig.toml` checks the whole project.

## Where the code differs from what it says

Each of these is proved: a family of inputs on which the promise fails, and the exact condition
under which it holds.

- Final job states are documented as sticky, and the guard in `SetState` as keeping a cancelled job
  cancelled (internal/filetransfer/manager.go:288-290, 306-311). `Cancel` writes the row
  through a fresh copy, so neither holds for the row: `TransferJobs.CancelledThenCompleted` with
  `TransferJobs.CancelledStaysIff`, and `TransferJobs.CompletedThenCancelled` with
  `TransferJobs.FinishedStaysIff`; both races are reachable. `SetState` discards errors of the store, and
  start-up those of the reaping: `TransferJobs.LostWriteStrands` with `TransferJobs.SettledIsFinalIff`.
- `Offset` is documented as ignored when `AfterID` is set (internal/access/group.go:20-26); the code applies
  it: `Paging.OffsetIgnoredIff`.
- Access checks list with nil options, so they see only the first default-limit targets:
  `Access.CheckIsExactIff`, `Access.CheckPassesIff`. `handleTargets` cuts each page a second time:
  `Paging.WalkIsCompleteIff`. An invitation of a group misses those beyond its limits: `Invitations.InvitedIff`.
- Group deletion is meant to leave assignments alone, but targets.group_id cascades as well, and moving
  a target does not update it: `GroupStore.DeleteKeepsAssignmentsIff`, `GroupStore.MovedTargetIsLost`.
  Its checks and its DELETE are separate statements: `GroupStore.NoOrphansIff`,
  `GroupStore.InterleavedKeepsAssignmentsIff`. The child test folds ASCII case, so a group below a case
  variant blocks deletion: `GroupStore.DeletableIff`.
- The transfer list formats its cursor to whole seconds and skips rows within a second:
  `TransferHistory.SubSecondRowsSkip` with `TransferHistory.WholeSecondWalkIff`.
- `syncOIDCGroups` says that every claimed group is granted and hand-made memberships are never touched
  (internal/httpapi/auth_oidc.go:519-527): `OidcSync.RevokedStaysAway` with `OidcSync.ClaimGrantsIff`,
  `OidcSync.HandMadeIsRemoved` with `OidcSync.HandMadeSurvivesIff`. An
  error while a group is looked up revokes it: `OidcSync.ManagedKeptIff`. A failed login is not always
  repaired by the next one: `OidcSync.RecoversIff`.
- `ApplyPendingRestore` takes any error of `os.Stat` for "no database", in which case the promoted file
  replaces the live one: `Restore.DishonestStatLoses` with `Restore.StartKeepsDatabaseIff`. It takes any
  error of the verification for a bad file, and sets a good one aside: `Restore.RerunsConvergeIff`. Stamps have a
  resolution of one second, and a reused one replaces the copy set aside before:
  `Restore.SameStampLoses` with `Restore.AsideSurvivesIff`.
- `csiParam` overflows silently: `CommandLine.CursorEscapes` with `CommandLine.CursorLostIff` and
  `CommandLine.CsiPanicIff`.
- The stores report every insertion error as an existing id, so a create request whose context is cancelled
  goes on through the whole range of suffixes: `FreshId.FailingStoreNeverEnds` with
  `FreshId.TargetSearchEndsIff` and `FreshId.GroupSearchEndsIff`.
- `BeginEnrolment` is documented to fail while a confirmed factor exists (internal/auth/totp.go:63-66), but its
  check and its write are apart: `Enrolment.DisablingRaceIsReachable` with `Enrolment.ConfirmedStaysIff`.
  For the same reason `Confirm` may enable a secret whose code nobody entered:
  `Enrolment.UncheckedIsEnabled` with `Enrolment.EnablesCheckedIff`.

## Model

| member | source | states |
|---|---|---|
| `CommandLine.EscapeLengthSpec` | internal/httpapi/command_line_tracker.go:54-91 | the scan reports length k exactly if the prefix of length k is a complete sequence of the grammar (OSC, CSI, two-byte), so at most one prefix is |
| `CommandLine.EscapeLengthStable` | internal/httpapi/command_line_tracker.go:54-87 | a complete sequence is recognised with the same length on every extension |
| `CommandLine.ScanSplits` | internal/httpapi/command_line_tracker.go:29-52 | lossless lexing: plain bytes, complete escapes and the pending buffer partition the input, and no prefix of the pending buffer is complete |
| `CommandLine.SplitUnique` | internal/httpapi/command_line_tracker.go:29-52 | that partition is the only one |
| `CommandLine.ScanConcat` | internal/httpapi/command_line_tracker.go:29-52 | lexing a concatenation is lexing the first part and resuming from its pending buffer |
| `CommandLine.ChunkIndependence` | internal/httpapi/command_line_tracker.go:29-87 | feeding p then q leaves the same line, cursor and pending buffer as feeding p followed by q, from every state |
| `CommandLine.AnyChunking` | internal/httpapi/command_line_tracker.go:29-52 | so does any chunking of a stream |
| `CommandLine.FedIsSettled` | internal/httpapi/command_line_tracker.go:29-52 | every state a feed produces is unchanged by an empty feed |
| `CommandLine.OscIsInvisible` | internal/httpapi/command_line_tracker.go:62-71 | removing an OSC sequence from the stream leaves the same tracker, whatever follows |
| `CommandLine.DeadAbsorbs` | internal/httpapi/command_line_tracker.go:80-86 | ESC followed by a non-final byte swallows all later input |
| `CommandLine.DeadIff` | internal/httpapi/command_line_tracker.go:54-87 | those are the only pending buffers that no input can complete |
| `CommandLine.AccumulateWraps` | internal/httpapi/command_line_tracker.go:178-184 | overflow at every digit amounts to one two's-complement wrap of the decimal value |
| `CommandLine.ParamIsValue` | internal/httpapi/command_line_tracker.go:171-189 | the parameter used is the wrapped value of the first number, or 1 when that is absent, zero or malformed |
| `CommandLine.CursorLostIff` | internal/httpapi/command_line_tracker.go:141-152 | for every parameter string, exactly when a control sequence drives the cursor out of the line |
| `CommandLine.CsiPanicIff` | internal/httpapi/command_line_tracker.go:113-169 | exactly when one panics, by a slice bound or by the largest allocation |
| `CommandLine.LostCursorByte` | internal/httpapi/command_line_tracker.go:93-111 | what each plain byte does to a cursor outside the line: which bring it back, which panic, which change nothing |
| `CommandLine.LostCursorReturns` | internal/httpapi/command_line_tracker.go:124-140 | CHA and EL 2 bring back any cursor |
| `CommandLine.SafeEditing` | internal/httpapi/command_line_tracker.go:93-202 | over any lexeme sequence with moderate motion counts and bounded growth, 0 <= cursor <= length throughout |
| `CommandLine.SafeStream` | internal/httpapi/command_line_tracker.go:29-202 | the same for byte streams whose numeric CSI parameters have at most 18 digits |
| `CommandLine.CursorEscapes` | internal/httpapi/command_line_tracker.go:141-146 | nineteen digits are too many: CUF past the largest int makes the column negative, and the next printable byte panics |
| `CommandLine.SpellSpec` | internal/httpapi/command_line_tracker.go:171-189 | every number has a spelling that the parameter parser reads back |
| `CommandLine.EraseSplitsLine` | internal/httpapi/command_line_tracker.go:115-130 | EL 0 and EL 1 keep complementary parts of the line, EL 1 shifting its part left; EL 2 clears |
| `CommandLine.DeleteUndoesInsert` | internal/httpapi/command_line_tracker.go:153-167 | ICH inserts zero bytes at the cursor, and DCH with the same parameter removes exactly those |
| `CommandLine.MotionsAgree` | internal/httpapi/command_line_tracker.go:131-152 | CUB undoes CUF, and CHA reaches the same column |
| `CommandLine.BackspaceUndoesTyping` | internal/httpapi/command_line_tracker.go:93-111 | BS and DEL undo a printable byte typed at the end of the line |
| `CommandLine.CsiIsFed` | internal/httpapi/command_line_tracker.go:29-87 | a control sequence in the stream acts as its final byte with its parameter bytes |
| `CommandLine.ByteIsFed` | internal/httpapi/command_line_tracker.go:29-52 | every other byte but ESC acts by itself |
| `CommandLine.ShortIsFed` | internal/httpapi/command_line_tracker.go:80-86 | two-byte escapes do nothing |
| `CommandLine.HeadIsFirst` | internal/httpapi/command_line_tracker.go:171-177 | the parameter is what stands before the first semicolon |
| `CommandLine.ValueIsFirst` | internal/httpapi/command_line_tracker.go:171-189 | a number is read as itself, whatever follows its semicolon |
| `CommandLine.ValueOfRubbish` | internal/httpapi/command_line_tracker.go:171-189 | nothing, or anything but digits, is read as the default |
| `CommandLine.MotionsStop` | internal/httpapi/command_line_tracker.go:131-152 | CUF and CUB move by the value and stop at the ends of the line; CHA counts columns from 1 and stops at the end |
| `CommandLine.DeletesCells` | internal/httpapi/command_line_tracker.go:153-161 | DCH, byte by byte: as many taken out from the cursor on as asked for or as there are |
| `CommandLine.InsertsCells` | internal/httpapi/command_line_tracker.go:162-167 | ICH, byte by byte |
| `CommandLine.ErasesCells` | internal/httpapi/command_line_tracker.go:115-130 | EL for every parameter: 1, 2, or anything else |
| `CommandLine.OthersIgnored` | internal/httpapi/command_line_tracker.go:113-169 | all other control sequences do nothing |
| `CommandLine.ByteCells` | internal/httpapi/command_line_tracker.go:93-111 | every plain byte inside the line, byte by byte: CR, erasure, overwriting, appending, ignored controls |
| `CommandLine.CommandLineTracker.Feed` | internal/httpapi/command_line_tracker.go:29-52 | the method refines the lexer-then-editor specification from any state, lost cursors included |
| `CommandLine.CommandLineTracker.ConsumeEscape` | internal/httpapi/command_line_tracker.go:54-87 | it consumes exactly one complete sequence and applies its effect, or changes nothing |
| `CommandLine.CommandLineTracker.FeedByte` | internal/httpapi/command_line_tracker.go:93-111 | effect of one plain byte on line and cursor |
| `CommandLine.CommandLineTracker.ApplyCSI` | internal/httpapi/command_line_tracker.go:113-169 | effect of one control sequence, overflow included |
| `CommandLine.CommandLineTracker.InsertByte` | internal/httpapi/command_line_tracker.go:191-202 | overwrite under the cursor or append at the end |
| `CommandLine.CommandLineTracker.CsiParam` | internal/httpapi/command_line_tracker.go:171-189 | the digit loop computes the wrapped accumulator, stopping with the default at a non-digit |
| `CommandLine.CommandLineTracker.Reset` | internal/httpapi/command_line_tracker.go:19-23 | the empty line, cursor 0, nothing pending, from any state |
| `RecoveryCodes.MarshalInjective` | internal/auth/totp.go:257-266 | equal JSON text means equal code lists, so the guard on text is a guard on lists |
| `RecoveryCodes.EveryInterleavingConserves` | internal/auth/totp.go:206-271 | every interleaving of Confirm and Verify calls issues the codes of its first confirmation and no others, and is equivalent to its accepted logins one at a time; remaining codes plus accepted logins is the issued count, and no digest is accepted more often than issued |
| `RecoveryCodes.FirstConfirmIssues` | internal/auth/totp.go:206-232 | the first confirmation, and no other, enables the factor and issues its codes |
| `RecoveryCodes.SequentialConserves` | internal/auth/totp.go:257-271 | a sequential history of logins conserves the multiset of codes |
| `RecoveryCodes.UpdateSucceedsIff` | internal/auth/totp.go:235-271 | a call that read the current list is accepted exactly if nobody else was accepted since: the first updater succeeds and all others fail |
| `RecoveryCodes.RunShrinks` | internal/auth/totp.go:257-271 | the stored list never returns to an earlier value |
| `RecoveryCodes.FindDigest` | internal/auth/totp.go:246-254 | the comparison loop finds the first occurrence of the digest |
| `RecoveryCodes.TotpRow.Verify` | internal/auth/totp.go:235-271 | the method is its load step followed by its update step; it accepts exactly a stored digest of an enabled factor and takes one of it away |
| `RecoveryCodes.TotpRow.Confirm` | internal/auth/totp.go:220-232 | only the first confirmation enables the factor, and it stores exactly the codes given |
| `Enrolment.ConfirmedStaysIff` | internal/auth/totp.go:137-170 | a confirmed factor is left alone by everything but Disable exactly if no BeginEnrolment is between its check and its write |
| `Enrolment.DisablingRaceIsReachable` | internal/auth/totp.go:137-232 | such a state is reachable |
| `Enrolment.EnablesCheckedIff` | internal/auth/totp.go:206-232 | a Confirm enables the secret it checked exactly if no enrolment stored one between its check and its write |
| `Enrolment.UncheckedIsEnabled` | internal/auth/totp.go:137-232 | with both calls under way, another secret is enabled |
| `Enrolment.Factor.BeginEnrolment` | internal/auth/totp.go:137-170 | the method is its two steps, and fails exactly on a confirmed factor |
| `Enrolment.Factor.Confirm` | internal/auth/totp.go:206-232 | the method is its two steps, and succeeds exactly on a pending factor, which it enables |
| `Enrolment.Factor.Disable` | internal/auth/totp.go:273-282 | the factor is gone, and the call fails exactly if there was none |
| `Restore.OldDatabaseSurvives` | internal/httpapi/backup.go:301-376 | over any history of stagings, starts and openings, each dying or failing anywhere, with distinct stamps and honest stats, the database live at the beginning is still live or set aside |
| `Restore.StartKeepsDatabaseIff` | internal/httpapi/backup.go:343-376 | one start loses the live database exactly if a sound file is staged, its checks succeed, the stat of the existing file fails and the promotion succeeds |
| `Restore.AsideSurvivesIff` | internal/httpapi/backup.go:361-366 | one start replaces a copy set aside earlier exactly if it has the same stamp and gets as far as moving the live database aside |
| `Restore.AppliedIsStaged` | internal/httpapi/backup.go:343-376 | a start that reports success leaves exactly the staged content live, verified and without sessions, nothing pending, the old database at the stamped path, and no other file changed |
| `Restore.ResultIs` | internal/httpapi/backup.go:343-376 | what a start reports, for every script of crashes and errors |
| `Restore.CompanionsLeftIff` | internal/httpapi/backup.go:369-371 | after a start that reports success, each of -wal and -shm is there exactly if it was and its removal failed |
| `Restore.QuietStartLeavesNoCompanions` | internal/httpapi/backup.go:369-371 | a start without errors leaves neither |
| `Restore.StageOutcome` | internal/httpapi/backup.go:301-337 | staging succeeds exactly if the source is sound and all its operations do; otherwise only the temporary file may differ, and errors of the copy and the scrub remove it |
| `Restore.RerunsConvergeIff` | internal/httpapi/backup.go:343-376 | after any starts that die or err anywhere, with the database opened in between, one start that runs through leaves the staged content live exactly if none of them erred while verifying or scrubbing it and renamed it away |
| `Restore.QuietStartFinishes` | internal/httpapi/backup.go:343-376 | from every intermediate state a start without errors completes the restore |
| `Restore.PendingAlwaysGood` | internal/httpapi/backup.go:301-376 | whatever is pending was verified and holds no sessions, after any history |
| `Restore.OpenSurvives` | internal/httpapi/router.go:229-243 | opening the database after a failed start, which creates an empty one if need be, loses nothing set aside |
| `Restore.SameStampLoses` | internal/httpapi/backup.go:361-366 | two restores within one second: the second set-aside copy replaces the first |
| `Restore.DishonestStatLoses` | internal/httpapi/backup.go:363-374 | an error of the stat of the live file makes the promotion overwrite it |
| `Restore.Disk.ApplyPendingRestore` | internal/httpapi/backup.go:343-376 | the method performs the step sequence for every script of crashes and errors |
| `Restore.Disk.StageRestore` | internal/httpapi/backup.go:301-337 | likewise for staging |
| `TransferJobs.HandleIsSticky` | internal/filetransfer/manager.go:312-325 | a handle never leaves a terminal state, in any run from any state |
| `TransferJobs.RowIsStable` | internal/filetransfer/manager.go:251-341 | once the terminal SetState has returned, no Cancel is in flight and no write of a final state was lost, the row is terminal and never changes state again, though it may be removed |
| `TransferJobs.SettledIsFinalIff` | internal/filetransfer/manager.go:333-336 | with lost writes: a settled row is final exactly if it is terminal or gone |
| `TransferJobs.LostWriteStrands` | internal/filetransfer/manager.go:333-336 | a lost write leaves an active row for a finished job |
| `TransferJobs.RestartSettles` | internal/httpapi/router.go:295-298 | after a restart nothing runs, and the row is final exactly if the reaping succeeded or there was nothing to reap |
| `TransferJobs.CancelledStaysIff` | internal/filetransfer/manager.go:306-341 | a cancelled row stays cancelled in every continuation exactly if the worker can no longer write another state |
| `TransferJobs.CancelledThenCompleted` | internal/filetransfer/manager.go:251-341 | from every state past the worker's last context check, a whole Cancel is overwritten by "completed" |
| `TransferJobs.RaceIsReachable` | internal/filetransfer/manager.go:143-178 | that state is reachable |
| `TransferJobs.CompletedThenCancelled` | internal/filetransfer/manager.go:262-283 | a Cancel in flight turns a finished row into a cancelled one |
| `TransferJobs.FinishedStaysIff` | internal/filetransfer/manager.go:288-299 | a completed or failed row is final exactly if no Cancel is between its read and its write |
| `TransferJobs.CompletedRaceIsReachable` | internal/filetransfer/manager.go:251-283 | a completed row with such a Cancel is reachable |
| `TransferJobs.SignalledNeverCompletes` | internal/httpapi/file_transfers_jobs.go:93-141 | a job signalled before its last context check never completes, in any continuation |
| `TransferJobs.SignalledIsCancelled` | internal/httpapi/file_transfers_jobs.go:129-141 | a job signalled before its last context check stores "cancelled" |
| `TransferJobs.UnsignalledCompletes` | internal/httpapi/file_transfers_jobs.go:129-141 | one that was not stores "completed", whatever is signalled later |
| `TransferJobs.RemovedStaysRemoved` | internal/filetransfer/store.go:67-78 | a removed row is never stored again |
| `TransferJobs.CompletedWasUncancelled` | internal/httpapi/file_transfers_jobs.go:211-253 | every completion goes back to a final check that saw no signal |
| `TransferJobs.LiveJob.SetState` | internal/filetransfer/manager.go:312-341 | the method is its three protocol steps, with or without an error of the store: on a terminal handle nothing, otherwise handle and row take the state and a final one releases the job |
| `TransferJobs.LiveJob.FinishTransfer` | internal/httpapi/file_transfers_jobs.go:128-141 | handle and row end cancelled if the context was done and completed otherwise |
| `TransferJobs.LiveJob.FailTransfer` | internal/httpapi/file_transfers_jobs.go:304-308 | handle and row end failed |
| `TransferJobs.LiveJob.StartTransfer` | internal/httpapi/file_transfers.go:418-425 | handle and row are running |
| `TransferJobs.LiveJob.Cancel` | internal/filetransfer/manager.go:251-286 | the method is its protocol steps: on a final or missing row nothing, otherwise a signal, and the row cancelled unless the store fails; the handle stays |
| `TransferHistory.QueryIsSubstring` | internal/filetransfer/store.go:240-246 | a query selects exactly the rows that contain it as plain text, up to ASCII case |
| `TransferHistory.SelectsIff` | internal/filetransfer/store.go:205-246 | every other clause of the filter |
| `TransferHistory.WalkShowsOwnJobs` | internal/filetransfer/store.go:177-260 | no walk, with either kind of cursor, shows another user's job or one outside the time range |
| `TransferHistory.PageIsPrefix` | internal/filetransfer/store.go:247-260 | a query returns the first rows beyond its cursor, as many as its limit says or 100 |
| `TransferHistory.ExactCursorWalk` | internal/filetransfer/store.go:177-260 | pages chained by the exact key of their last row list the selected rows in descending order, each once, even among equal timestamps |
| `TransferHistory.WholeSecondWalkIff` | internal/httpapi/file_transfers.go:132-139 | with the cursor cut to whole seconds, walks are complete for every page size exactly if the rows sharing a second are apart as `SecondsApart` says |
| `TransferHistory.WholeSecondRowsNeverSkip` | internal/filetransfer/manager.go:396-414 | whole-second timestamps are safe |
| `TransferHistory.SubSecondRowsSkip` | internal/filetransfer/manager.go:396-414 | any two rows with fractions in one second are not |
| `TransferHistory.TrimKeepsNewest` | internal/filetransfer/store.go:330-360 | after trimming, the user's finished jobs number the cap or fewer, and each kept one is newer than each deleted one |
| `TransferHistory.TrimKeepsIff` | internal/filetransfer/store.go:330-360 | a finished job survives exactly if fewer than the cap are newer |
| `TransferHistory.TrimKeepsOthers` | internal/filetransfer/store.go:330-360 | active jobs and other users' jobs are unchanged |
| `TransferHistory.TrimIdempotent` | internal/filetransfer/store.go:330-360 | trimming twice is trimming once |
| `TransferHistory.FreshJobSurvives` | internal/filetransfer/manager.go:283-284 | a job that finished last survives the trim it triggers |
| `TransferHistory.JobStore.TrimUserHistory` | internal/filetransfer/store.go:330-360 | deleting by rank is the trim, and the count returned is the number of rows removed |
| `TransferHistory.JobStore.MarkOrphansFailed` | internal/filetransfer/store.go:307-326 | afterwards every job is finished, exactly the unfinished ones changed, the count is their number, and nobody's history lost an entry |
| `TransferHistory.UpdatedHistory` | internal/filetransfer/store.go:67-78 | storing a state moves the job to its new place in its user's history, and changes nobody else's |
| `TransferHistory.JobStore.FinishJob` | internal/filetransfer/manager.go:333-340 | when a terminal state has been stored and trimmed, the user has at most the cap of finished jobs, this one among them if newest, and everything else is unchanged |
| `GroupPath.JoinSplit` | internal/httpapi/sharing.go:613-629 | joining the segments of any string gives it back |
| `GroupPath.SplitJoin` | internal/httpapi/sharing.go:613-629 | and splitting undoes joining for slash-free segments |
| `GroupPath.HierarchyEquivalence` | internal/access/sqlite_store.go:681-689 | on valid ids the substr test, "segments are a prefix" and membership in `ancestorGroupIDs` agree |
| `GroupPath.DescendantIffSegments` | internal/access/sqlite_store.go:681-689 | the first two agree on all strings |
| `GroupPath.HierarchyIsPartialOrder` | internal/access/sqlite_store.go:681-689 | reflexive, antisymmetric, transitive |
| `GroupPath.AncestorsFormChain` | internal/httpapi/sharing.go:613-629 | of two ancestors of one group, one is above the other |
| `GroupPath.AncestorsValid` | internal/access/sqlite_store.go:70-89 | ancestors of a valid id are valid |
| `GroupPath.ValidIsNormal` | internal/access/sqlite_store.go:70-89 | on valid ids nothing is trimmed or skipped by `ancestorGroupIDs` |
| `GroupPath.ValidIff` | internal/access/sqlite_store.go:70-89 | the accepted group ids, character by character |
| `GroupPath.AncestorGroupIDs` | internal/httpapi/sharing.go:613-629 | the loop returns every running prefix, root first, for any string |
| `Like.EscapedIsLiteral` | internal/access/sqlite_store.go:61-68 | an escaped operand in front of any pattern matches its own text, up to ASCII case, and nothing else |
| `Like.PrefixPatternExact` | internal/access/sqlite_store.go:65-68 | followed by "/%", exactly the strings that start with it and "/" |
| `Like.ContainsPatternExact` | internal/filetransfer/store.go:240-279 | between "%", exactly the strings that contain it |
| `Like.EscapeLikeOperand` | internal/filetransfer/store.go:265-279 | the loop computes the escape |
| `Paging.ApplyWindow` | internal/access/sqlite_store.go:972-997 | cursor skip, offset and limit give the window |
| `Paging.WindowCells` | internal/access/sqlite_store.go:972-997 | the window is the stretch of the listing beyond the cursor that offset and limit describe |
| `Paging.SortIDs` | internal/access/sqlite_store.go:972-977 | the sorted listing of the collected set |
| `Paging.OffsetIgnoredIff` | internal/access/sqlite_store.go:979-992 | the offset is ignored with a cursor exactly if it is not positive or nothing follows the cursor |
| `Paging.ListByIDs` | internal/access/sqlite_store.go:1372-1473 | for every chunk size, one lookup per first occurrence within the window, keeping rows with a valid port |
| `Paging.IdWindowCells` | internal/access/sqlite_store.go:1376-1386 | the ids looked up are the stretch that offset and limit describe |
| `Paging.LookupIsRows` | internal/access/sqlite_store.go:1421-1472 | the items are the rows of the table with a valid port, one per id, in order |
| `Paging.UniqueSpec` | internal/access/sqlite_store.go:1388-1396 | deduplication keeps every non-empty id once, in order of first occurrence |
| `Paging.WalkShows` | internal/httpapi/targets_handler.go:227-285 | what a whole walk shows, for every page size and default limit |
| `Paging.WalkIsComplete` | internal/httpapi/targets_handler.go:203-285 | with pages of 1 up to the default limit the walk ends and lists every accessible target that can be loaded, in order, once |
| `Paging.WalkIsCompleteIff` | internal/httpapi/targets_handler.go:203-285 | for all page sizes, including 0 for a malformed one, exactly when the walk is complete |
| `Paging.CutPage` | internal/httpapi/targets_handler.go:259-263 | the truncation and the cursor of both handlers |
| `Paging.IdWalkIsRest` | internal/httpapi/groups_handler.go:140-145 | following cursors over group ids lists them all, for every page size |
| `Access.Duality` | internal/access/sqlite_store.go:441-502 | u is among the users of t, and t among the targets of u, exactly if one of the three grant paths holds |
| `Access.MayAccessIff` | internal/access/sqlite_store.go:890-976 | who may reach a target, on the rows themselves |
| `Access.SeesGroupIff` | internal/access/sqlite_store.go:691-778 | who sees a group, on the rows themselves |
| `Access.UserIDsForTarget` | internal/access/sqlite_store.go:441-502 | the window of the sorted users of a target |
| `Access.TagAccessIff` | internal/access/sqlite_store.go:506-536 | access by tag is holding one of the granting tags |
| `Access.GrantingTagIff` | internal/access/sqlite_store.go:506-536 | which tags grant access to a target, on the rows themselves |
| `Access.PurgeIsInvisible` | internal/access/sqlite_store.go:363-376 | purging expired memberships changes no later listing |
| `Access.PurgeIsExact` | internal/access/sqlite_store.go:363-376 | exactly the memberships that expired before the given time go |
| `Access.AccessShrinks` | internal/access/sqlite_store.go:890-976 | with the tables unchanged, access only shrinks as time passes |
| `Access.TreeCoversAccess` | internal/httpapi/groups_handler.go:146-189 | allowed direct targets of visible groups are exactly the accessible targets in some group |
| `Access.VisibilityInherits` | internal/access/sqlite_store.go:691-778 | seeing a group by membership or group tag means seeing its descendants |
| `Access.TargetIDsForUser` | internal/access/sqlite_store.go:890-997 | union, sort and window give the window of the sorted accessible set |
| `Access.UserCanAccessTarget` | internal/httpapi/auth_helpers.go:280-300 | the check is membership in the default window |
| `Access.CheckIsSound` | internal/httpapi/auth_helpers.go:280-300 | it admits nobody the relation does not |
| `Access.CheckIsExactIff` | internal/httpapi/auth_helpers.go:280-300 | it agrees with the relation exactly if the user's set fits the default limit |
| `Access.CheckPassesIff` | internal/httpapi/auth_helpers.go:280-300 | target by target: it passes exactly the accessible ones with fewer than the limit before them |
| `Access.HandleTargets` | internal/httpapi/targets_handler.go:227-276 | one request: the page of the sorted accessible set, looked up, and its cursor |
| `Access.TargetWalkIsComplete` | internal/httpapi/targets_handler.go:203-285 | a user's walk with pages of 1 up to the default limit lists exactly the accessible targets that can be loaded, in order, once |
| `Access.TargetWalkIsSortedSet` | internal/httpapi/targets_handler.go:203-285 | in a consistent database that is the sorted accessible set itself |
| `Invitations.InvitableUserIDsForGroup` | internal/httpapi/sharing.go:551-609 | both errors, and otherwise the sorted users found in the listings and passed by the check |
| `Invitations.GroupUsableIff` | internal/httpapi/sharing.go:533-566 | the owner may invite the group exactly if it exists and is among the first groups the owner sees |
| `Invitations.TargetListedIff` | internal/httpapi/sharing.go:567-579 | the target passes exactly if it is among the first assigned to the group |
| `Invitations.InvitedIff` | internal/httpapi/sharing.go:551-609 | a user is invited exactly if a membership covers the group with fewer than 1000 members listed before, and fewer than the default limit of accessible targets before this one |
| `Invitations.InvitedIsCoverage` | internal/httpapi/sharing.go:580-609 | while the lists fit, exactly if a membership covers the group |
| `Invitations.InvitedMayAccess` | internal/httpapi/sharing.go:596-609 | nobody is invited who may not access the target |
| `GroupStore.Store.Delete` | internal/access/sqlite_store.go:257-292 | which of its outcomes (deleted, invalid, not empty, not found) and which tables, for any writes of others between its three statements |
| `GroupStore.OutcomeIs` | internal/access/sqlite_store.go:257-292 | each outcome of an undisturbed deletion, and that every failure changes nothing |
| `GroupStore.CascadeKeeps` | internal/db/sqlite/migrate.go:94-140 | what each table keeps when the row of a group goes |
| `GroupStore.NoOrphansIff` | internal/access/sqlite_store.go:268-291 | a successful deletion leaves no descendant exactly if none was created, and left, between the count of the children and the DELETE |
| `GroupStore.InterleavedKeepsAssignmentsIff` | internal/access/sqlite_store.go:268-291 | it keeps all assignments exactly if, when the DELETE runs, none names the group or a target at home in it |
| `GroupStore.DeleteLeavesNoOrphans` | internal/access/sqlite_store.go:257-292 | with no other writer, a successful deletion leaves no descendant group |
| `GroupStore.DeletableIff` | internal/access/sqlite_store.go:257-292 | an empty group can be deleted exactly if no group lies below it in any ASCII-case spelling |
| `GroupStore.DeleteKeepsAssignmentsIff` | internal/db/sqlite/migrate.go:101-125 | deletion keeps all assignments exactly if no assigned target has the group as its home |
| `GroupStore.MovedTargetIsLost` | internal/httpapi/targets_handler.go:602-623 | a target moved away is deleted with the group it came from |
| `GroupStore.Store.MoveTarget` | internal/httpapi/targets_handler.go:602-623 | the loop leaves the target in the new group only, with its home unchanged |
| `GroupStore.MoveKeeps` | internal/httpapi/targets_handler.go:602-623 | moving a target changes its assignments and nothing else |
| `GroupStore.DeleteKeepsForeignKeys` | internal/db/sqlite/migrate.go:101-135 | deletion keeps the tables consistent |
| `GroupTree.HandleGroups` | internal/httpapi/groups_handler.go:107-199 | the tree over the requested page of visible groups, and the cursor |
| `GroupTree.RowSpec` | internal/httpapi/groups_handler.go:160-189 | each line shows accessible, loadable targets of its group, and all of them unless a list was cut |
| `GroupTree.PageIsSound` | internal/httpapi/groups_handler.go:107-189 | whatever page is asked for: only accessible targets, under visible groups that hold them |
| `GroupTree.TreeIsExact` | internal/httpapi/groups_handler.go:146-189 | the tree shows exactly the accessible targets that are in some group and can be loaded, while the target lists fit |
| `GroupTree.UnpagedIsWhole` | internal/httpapi/groups_handler.go:112-119 | a request without page parameters covers all visible groups when they fit the default limit |
| `GroupTree.TreeWalkIsComplete` | internal/httpapi/groups_handler.go:112-145 | for every page size, following cursors collects the whole tree, each group once |
| `AuditRing.AuditStore.Add` | internal/httpapi/audit_store.go:33-45 | the buffer is always the newest entries of the whole history, numbered consecutively |
| `AuditRing.AuditStore.ListNewestFirst` | internal/httpapi/audit_store.go:49-68 | the first matches, newest first, one more than a page |
| `AuditRing.AuditStore.HandleAuditLogs` | internal/httpapi/audit_handler.go:101-105 | the page, and a cursor exactly if matches were left out |
| `AuditRing.PageHolds` | internal/httpapi/audit_handler.go:35-38 | a request for 1 to 1000 entries gets that many of the newest matches, any other 200, and a cursor exactly if there are more |
| `AuditRing.RetainedIff` | internal/httpapi/audit_store.go:33-45 | an entry is in the buffer exactly if its number is among the newest |
| `AuditRing.WalkDecreases` | internal/httpapi/audit_store.go:49-82 | over a whole walk, with any adds in between, ids strictly decrease: nothing is shown twice |
| `AuditRing.WalkIsComplete` | internal/httpapi/audit_store.go:49-82 | a finished walk shows every match that was in the buffer at each of its requests |
| `AuditRing.WalkBounds` | internal/httpapi/audit_store.go:49-82 | what it shows lies between the matches left at its last request and those present at its first |
| `AuditRing.WalkEnds` | internal/httpapi/audit_store.go:49-82 | following cursors ends within as many requests as there were entries, plus one |
| `OidcSync.DesiredGroups` | internal/httpapi/auth_oidc.go:530-541 | the groups that the claim maps to and whose lookup succeeds |
| `OidcSync.UserAccount.SyncOIDCGroups` | internal/httpapi/auth_oidc.go:528-576 | success is the reconciliation; any error leaves a prefix of its grants, then revocations, and the managed set as it was |
| `OidcSync.UserAccount.SetManagedGroups` | internal/auth/oidc_links.go:82-97 | all groups or, on an error of any statement, the old ones |
| `OidcSync.ClosedForm` | internal/httpapi/auth_oidc.go:528-576 | after any sequence of logins, with nothing managed at first and no other writer: the last desired groups, permanently, plus the initial memberships never desired, unchanged |
| `OidcSync.HandMadeSurvivesIff` | internal/httpapi/auth_oidc.go:519-527 | from any account, exactly when a membership made by hand is left as it was by any sequence of logins |
| `OidcSync.HandMadeIsRemoved` | internal/httpapi/auth_oidc.go:549-566 | two families in which it is removed: taken up by one login and dropped by a later one, or already managed when it was granted by hand |
| `OidcSync.MembershipAfterLogins` | internal/httpapi/auth_oidc.go:528-576 | from any account, what any sequence of logins makes of one membership |
| `OidcSync.ClaimGrantsIff` | internal/httpapi/auth_oidc.go:519-527 | a claimed group is held after a login unless it was managed and had been taken away |
| `OidcSync.RevokedStaysAway` | internal/httpapi/auth_oidc.go:549-557 | a managed group taken away stays away while the claim carries it |
| `OidcSync.ManagedKeptIff` | internal/httpapi/auth_oidc.go:533-566 | a managed group is kept exactly if the claim maps to it and its lookup succeeds |
| `OidcSync.InterruptedIsFailedLogin` | internal/httpapi/auth_oidc.go:549-576 | what an error leaves is a failed-login step of the runs below |
| `OidcSync.ManagedAreHeld` | internal/httpapi/auth_oidc.go:549-576 | in runs where nobody takes managed groups away, every managed group is held |
| `OidcSync.Untouched` | internal/httpapi/auth_oidc.go:549-566 | a group that no event concerns is unchanged by any run |
| `OidcSync.Noninterference` | internal/httpapi/auth_oidc.go:549-576 | the fate of one group does not depend on the others |
| `OidcSync.DroppedIsForgotten` | internal/db/sqlite/migrate.go:348-354 | deleting a group takes its membership and its mark along, so the next login that wants it grants it anew |
| `OidcSync.SyncIdempotent` | internal/httpapi/auth_oidc.go:528-576 | a repeated login changes nothing |
| `OidcSync.RetryConverges` | internal/httpapi/auth_oidc.go:549-576 | a retry with the same claim completes an interrupted login |
| `OidcSync.RecoversIff` | internal/httpapi/auth_oidc.go:549-576 | exactly when a login with another claim does |
| `FreshId.SlugID` | internal/httpapi/router.go:724-745 | the loop computes the words of the name joined by hyphens, or the default |
| `FreshId.SlugIsCanonical` | internal/httpapi/router.go:722-745 | every slug is non-empty, over [a-z0-9-], without hyphens at its ends or side by side, and a valid id segment |
| `FreshId.SlugFixesIff` | internal/httpapi/router.go:724-745 | the canonical ids are exactly the fixed points, so slugs are idempotent |
| `FreshId.SlugKeepsLetters` | internal/httpapi/router.go:724-745 | a slug has exactly the letters and digits of the name, capitals lowered; a name without any gives the default |
| `FreshId.WordsEndAt` | internal/httpapi/router.go:731-736 | words end at spaces, hyphens and underscores |
| `FreshId.WordWithoutEnd` | internal/httpapi/router.go:724-745 | and nowhere else |
| `FreshId.NormalizeTargetPath` | internal/httpapi/router.go:749-765 | the loop keeps the plain segments |
| `FreshId.NormalizeIdempotent` | internal/httpapi/router.go:747-765 | the result consists of plain segments and normalising again changes nothing |
| `FreshId.NormalByParts` | internal/httpapi/router.go:747-765 | normalising goes part by part and keeps each, trimmed, but the empty ones and the dots |
| `FreshId.TrimSpaceIs` | internal/httpapi/router.go:750-760 | trimming removes space at the ends and nothing else |
| `FreshId.CandidateInjective` | internal/httpapi/groups_handler.go:236-240 | different suffixes give different ids |
| `FreshId.CandidateReads` | internal/httpapi/groups_handler.go:236-240 | the candidates are the base and the base with the decimal number of the round |
| `FreshId.Registry.CreateFresh` | internal/httpapi/targets_handler.go:374-400 | with finitely many insertion errors the unbounded loop ends, after at most one more round than there are ids and errors, at the least suffix that is invalid or free and stored, and only there |
| `FreshId.SearchEndsIff` | internal/httpapi/groups_handler.go:236-252 | with 64-bit suffixes, the loop ends exactly if the base is malformed, has more than 492 characters, or some candidate is free and inserted without an error |
| `FreshId.TargetSearchEndsIff` | internal/httpapi/targets_handler.go:376-400 | the same for the validator of targets |
| `FreshId.GroupSearchEndsIff` | internal/httpapi/groups_handler.go:236-252 | the same for the validator of groups |
| `FreshId.FailingStoreNeverEnds` | internal/access/sqlite_store.go:199-205 | if every insertion fails, no round ends either search |
| `FreshId.Registry.HandleCreateGroup` | internal/httpapi/groups_handler.go:223-252 | the id created for a name and path, or the rejection |
| `FreshId.SlugCandidatesValid` | internal/access/sqlite_store.go:91-103 | with a slug as base only the length limit can reject a target id |
| `FreshId.ValidAsciiNameIff` | internal/access/sqlite_store.go:105-118 | which ASCII names are accepted |
| `FreshId.GroupCandidatesValid` | internal/access/sqlite_store.go:70-89 | likewise for a group id below a valid path |

## Left out

- CommandLine: what becomes of the tracker after a panic, which nothing recovers; allocation failures below the runtime's largest allocation; `currentLine`, `mergeCommandLine`, prompt stripping and the recorder's per-chunk `lastEchoLine`.
- RecoveryCodes: SHA-256 and AES-GCM are not modelled and TOTP validity is a parameter; `BeginEnrolment` and `Disable` racing with `Verify`; a row that is not a JSON list.
- Enrolment: secrets are taken to be distinct, codes entered for `Confirm` to be valid, and database errors not to occur.
- Restore: two stagings at the same time, which share one temporary path; what the server writes to the live database while it runs; contents of the WAL and SHM files, durability of renames, `handleCancelRestore`, and the checksum audit.
- TransferJobs: progress updates, timestamps, temporary files, notifications, and the ownership check of `Cancel`.
- TransferHistory: a blank user id is an error, the query is trimmed, and rows updated while a client pages may move.
- Like.EscapeLikeOperand: strings are sequences of characters, so bytes that are not valid UTF-8, which the Go loop rewrites to U+FFFD, are not modelled.
- Like: NUL characters, and non-ASCII case, which SQLite does not fold either.
- Access: the row cap and timeouts of the fan-out queries are taken not to be hit.
- Paging: parsing of the limit and cursor parameters.
- GroupTree: the administrator's view, which lists all groups and targets; group names and tags; lines skipped because a query fails.
- Invitations: invitations by tag or by link, and query errors.
- AuditRing: the database-backed listing, the request's own filter and time range (any filter is allowed), a nil filter, and 64-bit overflow of ids.
- OidcSync: claim and configuration parsing, role synchronisation and the last-administrator rule, audit lists, and groups deleted while a login runs.
- GroupStore: database errors.
- FreshId.Registry.CreateFresh: the suffix of the method is unbounded; with finitely many errors it stays within the number of ids and errors.
- FreshId: validation of hosts, protocols and credentials, and what the handlers do after the insertion.
- HTTP decoding, JSON, cookies, internationalisation, WebAuthn, the collaborative room, sessions, protocol clients, recordings and TLS: plumbing or foreign code.
