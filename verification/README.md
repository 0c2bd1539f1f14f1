# gitlet in Dafny

A model of the version-control engine behind the `gitlet` commands, with
proofs about it. It covers three layers.

- **Object identity.** A blob is a file name plus bytes. Its digest depends
  only on the byte length and the bytes. Digests are an abstract injective
  hash: each `Digest` constructor is one way of hashing, so two digests are
  equal exactly when their inputs are.
- **The commit/staging record.** One `Commit` datatype has a `Staged` variant
  and a `Finished` variant. The staged one holds a base mapping, pending blobs
  and pending removals. Finishing applies `(blobs \ removed) ⊕ added`.
- **The repository.** A `Repo` holds:
  - the object store (digest to blob or commit);
  - the refs (branch to digest);
  - HEAD;
  - an optional stage file;
  - the working directory (file name to bytes);
  - the branch logs.

  Each command is a function or method from a `Repo` to a `Step`, which is
  the new `Repo` plus an optional error. An error is either a `Thrown`
  exception, which a caller may catch, or an `Abort`, which ends the process
  with nothing rolled back.

The modules follow the source.

| module | what it holds |
|---|---|
| `Digests` | digests |
| `Blobs` | blobs |
| `Commits` | the staging record and the two working-file classifiers |
| `Store` | write-once objects |
| `ObjectPath` | the object path codec |
| `HeadRef` | the HEAD codec |
| `CommitLog` | the log-line codec |
| `LogSearch` | `find` |
| `Graph` | the ancestor walks |
| `MergeStatus` | the per-path classifier |
| `Workspace` | the snapshot and the reconciler `restoreAllFiles` |
| `Repository` | the staging and branch commands |
| `Checkout` | `switchToBranch` and `reset` |
| `Merging` | `merge` |

The source iterates hash maps and directory listings in an order it does not
fix. The model takes such an order as a parameter that must list each key
once (`Enumerates`), or picks one with `Merging.SomeOrder`.

The reconciler reads blobs from the store, and its guarantees hold when the
store is consistent (`Workspace.Ready`):

- every object is filed under its own digest;
- every blob either commit names is stored;
- for the write as written, each target blob was read from the very path
  that names it.

The merge guarantees rest on the same condition for the split point and the
two heads (`Merging.MergeReady`).

The two working-file checks in `Commit.java` consult the stage and the base
in opposite orders, and the model keeps both. `Commits.UnstagedChecksAgree`
proves the two agree wherever the order cannot matter.
`Commits.StagedEditDisagreement` and `Commits.RevertedEditDisagreement` give
one input each where they disagree.

## Model

| member | source | states |
|---|---|---|
| Blobs.Equals | proj2/gitlet/Blob.java:43-48 | comparing with null is false; otherwise two blobs are equal exactly when their bytes are equal, whatever their file names |
| Blobs.Id | proj2/gitlet/Blob.java:37 | a blob's digest is never the zero digest of a staging record nor any commit's digest |
| Blobs.NewBlob | proj2/gitlet/Blob.java:28-38 | reading a file succeeds exactly when it exists in the working directory and then carries its name and bytes; a missing file fails with "File does not exist." |
| Blobs.SameBytesSameBlob | proj2/gitlet/Blob.java:37 | two files with equal bytes give equal blobs with equal digests, even under different names |
| Commits.SameCommit | proj2/gitlet/Commit.java:157-164 | commit equality is digest equality: finished commits are equal iff their digest inputs are, staged records (all sharing the zero digest) are all equal, a staged record never equals a finished commit, null is never equal |
| Commits.CreateStaged | proj2/gitlet/Commit.java:84-94 | a staging record starts on its parent's mapping with nothing added or removed, names the parent, has the zero digest and the branch "staged", and is well formed |
| Commits.AddedDigests | proj2/gitlet/Commit.java:110-112 | the overlay mapping has exactly the added paths, each mapped to its blob's digest |
| Commits.Finish | proj2/gitlet/Commit.java:105-155 | the finished mapping has a path iff it is added or tracked and not removed; added blobs win over removals; the other tracked paths keep their digests; the parent is kept and the merge parent is the target; branch, message and timestamp are as given |
| Commits.InitCommit | proj2/gitlet/Commit.java:179-186 | the initial commit has an empty mapping, no parents, message "initial commit", timestamp 0, branch "master", and the digest of those inputs with the zero parent |
| Commits.FinishDigestInputs | proj2/gitlet/Commit.java:119-126 | a commit's digest depends only on the mapping, the parent digest (zero when absent), the message and the timestamp: branch and merge parent do not change it |
| Commits.FinishUnchanged | proj2/gitlet/Commit.java:105-112 | finishing a record with no pending change reproduces the base mapping |
| Commits.AddToStage | proj2/gitlet/Commit.java:194-217 | reports no change exactly when an equal blob is already staged, and then changes nothing; otherwise the path is staged unless the blob equals the tracked one, in which case it is unstaged; base, removals and other paths are untouched |
| Commits.AddToStageIdempotent | proj2/gitlet/Commit.java:194-217 | staging the same blob twice equals staging it once, and the second call reports no change when the blob differs from the tracked one |
| Commits.ReaddFromRemoved | proj2/gitlet/Commit.java:225-227 | reports whether the path was pending removal and takes it out of the removals, changing nothing else |
| Commits.RemoveFromAll | proj2/gitlet/Commit.java:235-245 | always unstages the path; a tracked path is also marked removed and reported; an untracked one is reported iff it was staged; added and removed stay disjoint |
| Commits.RemoveFromCommit | proj2/gitlet/Commit.java:253-261 | marks a path removed exactly when it is tracked, and leaves the pending blobs alone |
| Commits.RemoveFromStage | proj2/gitlet/Commit.java:269-272 | unstages a path and reports whether it was staged; nothing else changes |
| Commits.AddThenRemoveUntracked | proj2/gitlet/Commit.java:194-245 | staging a new untracked file and then removing it returns the record to where it was |
| Commits.HasStagedChanges | proj2/gitlet/Commit.java:274-277 | holds iff something is added or removed |
| Commits.IsBlobModified | proj2/gitlet/Commit.java:303-318 | a staged path differs when the staged bytes differ; otherwise a tracked path differs when its digest differs; an unknown path never does |
| Commits.IsFileNew | proj2/gitlet/Commit.java:327-333 | a path is not new exactly when it is staged or tracked and not pending removal; a path reported new is unstaged or pending removal |
| Commits.FileNewIsUnstagedNew | proj2/gitlet/Commit.java:327-333 | for a working file not pending removal, `isFileNew` holds exactly when `getUnstaged` puts the file in its NEW category |
| Commits.GetAllDeleted | proj2/gitlet/Commit.java:343-348 | the deleted paths are exactly the tracked or staged ones missing from the given files |
| Commits.GetUnstaged | proj2/gitlet/Commit.java:372-418 | DELETED exactly for the tracked, unremoved paths missing from the working directory; NEW exactly for the working files neither staged nor tracked; MODIFIED exactly when a staged file's bytes differ, or when an unstaged tracked file's digest differs |
| Commits.HasUnstaged | proj2/gitlet/Commit.java:424-467 | holds iff some working file fails the base-first check or some tracked, unremoved path is missing |
| Commits.UnstagedChecksAgree | proj2/gitlet/Commit.java:372-467 | wherever no file is both staged and tracked with bytes matching only one of the two blobs, `hasUnstaged` holds iff `getUnstaged` reports something |
| Commits.StagedEditDisagreement | proj2/gitlet/Commit.java:437-446 | a staged edit still on disk: `getUnstaged` reports nothing while `hasUnstaged` reports a change |
| Commits.RevertedEditDisagreement | proj2/gitlet/Commit.java:388-399 | a staged edit reverted on disk to the base bytes: `getUnstaged` reports MODIFIED while `hasUnstaged` reports nothing |
| Store.Put | proj2/gitlet/Repository.java:1436-1447 | an object is written under its digest only when none is there yet ("Object exists!" otherwise); existing objects are untouched and the store stays keyed by digest |
| Store.GetBlob | proj2/gitlet/Repository.java:1186-1199 | reading a blob succeeds exactly when a blob is stored under the digest, and returns it |
| Store.GetCommit | proj2/gitlet/Repository.java:1170-1184 | reading a commit succeeds exactly when a commit is stored under the digest, and returns it |
| Store.PutGetRoundTrip | proj2/gitlet/Repository.java:1436-1447 | what was written reads back, and a second write of the same digest is refused |
| Store.Ids | proj2/gitlet/Repository.java:550-554 | the digests of a list of blobs: every blob's digest and nothing else |
| Store.FirstWithId | proj2/gitlet/Repository.java:550-554 | finds a listed blob with the digest exactly when one exists |
| Store.PutBlobs | proj2/gitlet/Repository.java:550-554 | writing the added blobs and ignoring "Object exists!" stores each new digest once, never overwrites, and keeps the store keyed by digest |
| ObjectPath.Split | proj2/gitlet/Repository.java:1437-1441 | the object path splits a digest of at least two characters into a two-character directory and a file name whose concatenation is the digest; shorter text is refused |
| ObjectPath.SplitInjective | proj2/gitlet/Repository.java:1436-1447 | two digests with the same object path are the same digest, so write-once files are write-once digests |
| HeadRef.LastIndexOf | proj2/gitlet/Repository.java:904-912 | the last position of a character, or -1 when absent |
| HeadRef.CurrentBranch | proj2/gitlet/Repository.java:904-912 | the branch read from HEAD is the whole text after its last `/`: a `/`-free suffix that is either all of HEAD or starts right after a `/` |
| HeadRef.HeadText | proj2/gitlet/Repository.java:1106-1111 | the text written to HEAD has the branch as its suffix, right after a `/` |
| HeadRef.HeadRoundTrip | proj2/gitlet/Repository.java:1106-1111 | writing `refs/heads/` plus a `/`-free branch and reading it back gives the branch |
| HeadRef.SlashedNameIsTruncated | proj2/gitlet/Repository.java:904-912 | a branch `a/b` is read back as `b` |
| CommitLog.LongText | proj2/gitlet/Repository.java:1418 | the decimal text of a long holds no space and no newline, so it stays one field of one line |
| CommitLog.ParseLong | proj2/gitlet/Repository.java:225 | a parsed long lies in the 64-bit range |
| CommitLog.NatTextValue | proj2/gitlet/Repository.java:1418 | the decimal text of a natural number reads back as that number |
| CommitLog.LongRoundTrip | proj2/gitlet/Repository.java:225 | every long written as decimal text is read back by the long parser |
| CommitLog.IndexOf | proj2/gitlet/Repository.java:223 | the first position of a character, or -1 exactly when it is absent |
| CommitLog.SplitN | proj2/gitlet/Repository.java:223 | a limited split yields between one and `n` fields that, joined with the separator, give the input back; no field but the last holds the separator, and the last does not either when fewer than `n` fields came out |
| CommitLog.SplitNLength | proj2/gitlet/Repository.java:270 | a limited split yields one field more than the separators in the text, up to the limit |
| CommitLog.SplitJoin | proj2/gitlet/Repository.java:223 | conversely, splitting fields joined with the separator gives them back when no field but the last holds it (and the last does not either when there are fewer than `n`) |
| CommitLog.JoinInjective | proj2/gitlet/Repository.java:223 | two such field lists that join into the same text are equal, so a limited split has exactly one possible result |
| CommitLog.Line | proj2/gitlet/Repository.java:1409-1423 | a log line is the parent digest, the commit digest, the time and the message joined by single spaces |
| CommitLog.Render | proj2/gitlet/Repository.java:1408-1423 | a log file is its lines joined by newlines with a newline after the last one |
| CommitLog.Parse | proj2/gitlet/Repository.java:223-226 | the id and the time are read before the message: fewer than three fields, or a good time and fewer than four fields, is a missing field; a bad time on three or more fields is a bad number; a parsed entry has space-free digests and a long time |
| CommitLog.LineFields | proj2/gitlet/Repository.java:1409-1423 | splitting a written log line into four fields at spaces gives the parent, digest, time and the whole message, even when the message has spaces (derived from `SplitJoin`) |
| CommitLog.LineRoundTrip | proj2/gitlet/Repository.java:223-226 | parsing a written line gives back the entry |
| CommitLog.DropTrailingEmpty | proj2/gitlet/Repository.java:268 | removing trailing empty fields keeps a prefix that is empty or ends in a non-empty field, and cuts only empty fields |
| CommitLog.SplitLines | proj2/gitlet/Repository.java:268 | text without a newline is one line; otherwise the lines are the newline-separated fields with the trailing empty ones dropped |
| CommitLog.LogFileRoundTrip | proj2/gitlet/Repository.java:266-272 | splitting a non-empty written log file at newlines gives back its lines |
| LogSearch.ScanLines | proj2/gitlet/Repository.java:266-279 | the process ends exactly when some line has fewer than three spaces (so fewer than four fields); the ids printed are those of the matching lines before the first such line, in order |
| LogSearch.ScanFile | proj2/gitlet/Repository.java:266-279 | one file ends the process exactly when one of its lines is short; an empty file always does, printing nothing |
| LogSearch.ScanWrittenLines | proj2/gitlet/Repository.java:266-279 | scanning written lines prints the digest of every entry whose message equals the query, in order, and never crashes |
| LogSearch.ScanWrittenFile | proj2/gitlet/Repository.java:266-279 | the same for a non-empty written log file |
| LogSearch.EmptyLogCrashes | proj2/gitlet/Repository.java:270-272 | an empty log file splits into one empty line, which has no fields, so the scan crashes |
| LogSearch.Find | proj2/gitlet/Repository.java:244-264 | `find` as written succeeds only after printing something |
| LogSearch.FindFrom | proj2/gitlet/Repository.java:250-260 | once something was found, success needs nothing more to be printed |
| LogSearch.FindAll | proj2/gitlet/Repository.java:244-264 | the corrected search succeeds only after printing something, reports no match only when it printed nothing, and otherwise stops with a missing field |
| LogSearch.FindAllReports | proj2/gitlet/Repository.java:244-264 | the corrected search prints every match of every log in order, and reports "Found no commit with that message." exactly when there is none |
| LogSearch.FindVerdict | proj2/gitlet/Repository.java:244-264 | for written logs, the search as written fails exactly when nothing was found before and no log has a match |
| LogSearch.FindStopsAtFirstMatch | proj2/gitlet/Repository.java:252-256 | as written, once a log has a match the later logs are not read at all |
| LogSearch.FirstFileFound | proj2/gitlet/Repository.java:252-256 | a first file with a match is all that is printed |
| LogSearch.TwoLogsFindFirst | proj2/gitlet/Repository.java:252-256 | two one-entry logs whose first entry matches: as written only the first id is printed |
| LogSearch.TwoLogsFindAll | proj2/gitlet/Repository.java:244-264 | two one-entry logs that both match: corrected, both ids are printed in order |
| LogSearch.FindMissesSecondBranch | proj2/gitlet/Repository.java:252-256 | two branches with the same message: as written one id is printed, corrected both are |
| Graph.NoHistoryThrough | proj2/gitlet/Repository.java:810-835 | a missing or badly linked commit that every closed set containing the head must hold means the head has no well-linked history |
| Graph.AllAncestors | proj2/gitlet/Repository.java:810-835 | on success the result holds the head, is closed under both parent links, and holds only ancestors of the head (it is the least closed set); it fails only when no well-linked history exists in the graph of stored commits (a merge parent without a parent, or a parent digest with no stored commit, which the source cannot meet because it follows the parent objects held inside each commit) |
| Graph.CommonAncestor | proj2/gitlet/Repository.java:766-801 | a result lies in their ancestor set and is an ancestor of our head; it is a nearest one: no member of their set is fewer parent steps from our head; our head is returned when it is in their set; when it is not but its first parent is, that parent is returned (it is queued ahead of the merge parent); failing means our history is not well linked or none of their ancestors is ours |
| Graph.CommonAncestorOf | proj2/gitlet/Repository.java:758-801 | the latest common ancestor of two heads: an ancestor of both that no common ancestor beats in parent steps from our head; our head whenever it is an ancestor of the target, and otherwise its first parent whenever that is; failing means one of the histories is not well linked or the two share no commit |
| Graph.ChainNearest | proj2/gitlet/Repository.java:758-764 | on the chain a ← b ← c, b is one parent step from c and a is two and not one, so of the two common ancestors only b is the latest |
| MergeStatus.Status | proj2/gitlet/Repository.java:569-629 | for every split digest and optional target and current digests the code is one of 1, 2, 3, 6, 7, 8 (never the fallback 0), and equals an independent reference classification |
| MergeStatus.StatusExamples | proj2/testing/student_tests/GitletTest.java:15-32 | the expected codes: conflict 8, both deleted 3, same change 3, target-only change 1, current-only change 2, deleted in target 6, deleted in current 7, and 8 for a change against a deletion |
| MergeStatus.ConflictWithCurrentAbsent | proj2/gitlet/Repository.java:599-601 | with the current side absent the code is 8 exactly when the target changed the path |
| Workspace.WriteBlob | proj2/gitlet/Repository.java:1284-1296 | writing a blob puts its bytes at its stored file name (or, corrected, at the path restored) and leaves every other file alone |
| Workspace.RestoreDigest | proj2/gitlet/Repository.java:1273-1276 | restoring by digest fails exactly when no blob is stored under it, and otherwise writes that blob |
| Workspace.SharedContentLandsElsewhere | proj2/gitlet/Repository.java:1284-1296 | two files sharing bytes share the stored blob: restoring the second path as written fills the first file; corrected it fills the second |
| Workspace.TestUnstaged | proj2/gitlet/Repository.java:745-755 | a path outside the listed files passes; a listed path passes iff it exists with exactly the compared blob's bytes; otherwise the untracked-file error, or "File does not exist." |
| Workspace.RestoreWorkspace | proj2/gitlet/Repository.java:712-736 | writing the snapshot back restores every snapshotted file, brings back deleted ones and keeps files created since |
| Workspace.RollbackExact | proj2/gitlet/Repository.java:730-736 | when the command created no new file, the rollback gives exactly the snapshot |
| Workspace.RollbackKeepsCreated | proj2/gitlet/Repository.java:730-736 | a file created after the snapshot survives the rollback |
| Workspace.Escalate | proj2/gitlet/Repository.java:1306-1354 | the untracked-file error is rethrown as such; any other error ends the process |
| Workspace.SweepStep | proj2/gitlet/Repository.java:1312-1335 | one working file: blocked exactly when `Blocks` says so (its bytes would be lost and differ from the head's blob); otherwise a target path gets the target content, a head-only path is deleted, an untracked one is kept, and no other file changes |
| Workspace.Sweep | proj2/gitlet/Repository.java:1312-1335 | the first pass succeeds exactly when no working file blocks, and then every file is settled as in `SweepStep`; it never creates files |
| Workspace.Fill | proj2/gitlet/Repository.java:1337-1352 | the second pass creates and fills every target path missing from disk with the target content and leaves every other file alone |
| Workspace.RestoreAllFiles | proj2/gitlet/Repository.java:1306-1354 | succeeds exactly when no working file blocks (`Clear`); on success every target path holds the target content, head-only files are deleted, untracked files are kept, and nothing else exists; on failure the error is the untracked-file error and no file was created |
| Workspace.ReadyWithoutHead | proj2/gitlet/Repository.java:1337-1352 | what the first pass needs of the store covers what the second pass needs |
| Repository.CurrentBranch | proj2/gitlet/Repository.java:904-912 | for a `/`-free HEAD branch the current branch is that branch |
| Repository.HeadCommit | proj2/gitlet/Repository.java:958-964 | the head commit reads exactly when HEAD names an ordinary branch whose digest names a stored commit; a directory name ends the process and a missing ref is "Broken gitlet directory!" |
| Repository.ReadRef | proj2/gitlet/Repository.java:1161-1184 | reading a ref succeeds exactly when it is an ordinary name whose digest names a stored commit, and gives that commit |
| Repository.BranchHead | proj2/gitlet/Repository.java:972-980 | a branch without a ref file is refused with "No such branch exists."; otherwise the ref is read |
| Repository.StagedCommit | proj2/gitlet/Repository.java:987-996 | the stage file when present; otherwise a fresh staging record on the head commit, failing exactly when the head commit cannot be read |
| Repository.ValidReads | proj2/gitlet/Repository.java:958-996 | in a consistent repository (`Valid`), the head commit and the staging record can always be read, and everything they name is stored |
| Repository.Add | proj2/gitlet/Repository.java:77-104 | a path pending removal is only re-added and its base content written back (a missing base blob is an error, a missing base entry a crash); an existing file is staged so that `getUnstaged` no longer reports it; a missing file is unstaged or marked removed, or refused when unknown |
| Repository.Remove | proj2/gitlet/Repository.java:119-139 | a staged path is only unstaged; otherwise a tracked path is marked removed and its file deleted; otherwise "No reason to remove the file." |
| Repository.RemoveThenAdd | proj2/gitlet/Repository.java:77-139 | removing a tracked path and adding it back restores the staging record and the file's content |
| Repository.AddedInOrder | proj2/gitlet/Repository.java:550-554 | the added blobs listed in the given order |
| Repository.AddedStored | proj2/gitlet/Repository.java:550-554 | every added blob is among those written |
| Repository.WriteCommitFiles | proj2/gitlet/Repository.java:1044-1054 | the branch ref moves to the commit and one record is appended to the branch log; the commit is stored unless its digest exists, which ends the process |
| Repository.StoreCommit | proj2/gitlet/Repository.java:543-560 | the added blobs are stored, then the commit; success exactly when the commit's digest was new; the ref moves either way; success reads the commit back and deletes the stage |
| Repository.WhitespaceEdges | proj2/gitlet/Repository.java:158 | code points 0x1C and U+3000 count as whitespace; the non-breaking spaces U+00A0, U+2007 and U+202F do not |
| Repository.LeadingBlank | proj2/gitlet/Repository.java:158 | the leading whitespace run: all whitespace before it, and a non-whitespace character right after it when it stops early |
| Repository.IsBlank | proj2/gitlet/Repository.java:158 | a message is blank exactly when every character is whitespace; the empty message is blank |
| Repository.Record | proj2/gitlet/Repository.java:1409-1423 | the log record names the commit's digest (a commit digest), its parent's digest or zero, its time and its message |
| Repository.CommitCmd | proj2/gitlet/Repository.java:152-174 | a stage without changes is refused before a blank message is; otherwise the finished stage is stored on the current branch |
| Repository.CommitReadBack | proj2/gitlet/Repository.java:152-174 | after a commit the head commit is the finished stage, and the next staging record starts clean on it |
| Repository.Components | proj2/gitlet/Repository.java:282 | the resolved components are `/`-free, non-empty and not `.`; an ordinary name is its own single component |
| Repository.CreateNewBranch | proj2/gitlet/Repository.java:282-294 | a name resolving to `refs/heads` itself or its parent is refused as existing; a one-component name is refused when that branch exists and otherwise gets a new ref at the head commit, nothing else changing; a name of several components not starting with `..` ends the process |
| Repository.BranchNameResolution | proj2/gitlet/Repository.java:282-294 | `./x` and `x/` create branch `x` as `x` does; `./m` is refused when `m` exists; `x/y` ends the process |
| Repository.RemoveBranch | proj2/gitlet/Repository.java:296-318 | as written: a missing or current branch is refused; a branch without a log ends the process after the removed-branch log was created; otherwise the ref and log go and the log is appended to the removed-branch log |
| Repository.RemoveBranchCorrected | proj2/gitlet/Repository.java:296-318 | a missing log reads as empty: every ordinary non-current branch can be removed, and every other ref is kept |
| Repository.RemoveFreshBranchCrashes | proj2/gitlet/Repository.java:282-318 | a branch just created cannot be removed: the process ends and the ref stays |
| Repository.CreateThenRemoveBranch | proj2/gitlet/Repository.java:282-318 | corrected, creating and removing a branch leaves the refs as they were |
| Checkout.Rollback | proj2/gitlet/Repository.java:730-736 | the rollback puts every snapshot file back, keeps files created since, deletes the stage file and touches nothing else |
| Checkout.Caught | proj2/gitlet/Repository.java:342-347 | a caught exception is rethrown after the rollback; an abort leaves the repository where it stands |
| Checkout.StoredTreesReady | proj2/gitlet/Repository.java:1306-1354 | in a valid repository the reconciler's store condition holds for any two stored commits when writing at the path |
| Checkout.SwitchToBranch | proj2/gitlet/Repository.java:320-348 | the current branch and a branch without a ref are refused; otherwise it succeeds exactly when no working file blocks, then HEAD names the branch and the files are reconciled; a failure rolls the files back exactly and deletes the stage; refs, store and validity are kept |
| Checkout.ValidElsewhere | proj2/gitlet/Repository.java:320-348 | validity ignores the working directory, survives deleting the stage file, and holds with any ordinary branch with a ref as HEAD |
| Checkout.Reset | proj2/gitlet/Repository.java:350-373 | as written: an unknown commit, an unreadable stage and any unstaged change are refused first; then the ref moves to the target for good, and the reconciliation compares the target with itself, succeeding exactly when every target file on disk already has the target bytes |
| Checkout.MoveAndRestore | proj2/gitlet/Repository.java:360-372 | moving the ref first makes the fresh head read the target, so the reconciler runs from the target to itself and a failure leaves the ref moved and the files restored |
| Checkout.MovedRefReadsTarget | proj2/gitlet/Repository.java:1478-1480 | after the ref moves to a stored commit, the head commit read afresh is that commit |
| Checkout.ClearAgainstItself | proj2/gitlet/Repository.java:1306-1354 | reconciling a commit against itself is blocked exactly by a tracked file whose bytes differ |
| Checkout.ReadCommit | proj2/gitlet/Repository.java:1170-1184 | reading a commit by digest succeeds exactly when it is stored |
| Checkout.ResetCorrected | proj2/gitlet/Repository.java:350-373 | corrected: it reconciles from the old head to the target at each path, succeeds exactly when no file blocks, moves the ref only on success, and with no stage file a passing guard always succeeds |
| Checkout.CleanTreeNeverBlocks | proj2/gitlet/Repository.java:353-359 | with no stage file, passing the unstaged-change guard means no working file can block a reconciliation away from the head |
| Checkout.ResetRefusesCleanTree | proj2/gitlet/Repository.java:350-373 | a valid, clean repository where resetting to the next commit passes the guard, yet the self-comparison blocks the tracked file |
| Checkout.ResetExampleValid | proj2/gitlet/Repository.java:350-373 | the example repository is valid |
| Checkout.ResetExampleClean | proj2/gitlet/Repository.java:353-359 | the example passes the unstaged-change guard |
| Merging.MergedByStatus | proj2/gitlet/Repository.java:441-509 | the merged version by status: 1 takes the target, 6 drops the path, 2, 3, 7 and 8 keep the current side; a path new in the target is taken only when the current side lacks it |
| Merging.MergedTree | proj2/gitlet/Repository.java:441-509 | the merged mapping holds each path's merged version |
| Merging.SplitStep | proj2/gitlet/Repository.java:441-496 | one split-point path: refused exactly when its file blocks or the current side is absent on a conflict (a null dereference that ends the process); otherwise the base and parent are kept |
| Merging.TargetStep | proj2/gitlet/Repository.java:497-509 | one target path: a path at the split point or in the current branch is left alone; otherwise refused exactly when its file blocks |
| Merging.SplitPass | proj2/gitlet/Repository.java:441-496 | the first loop succeeds exactly when no split-point path blocks or crashes, and then every such path is settled |
| Merging.TargetPass | proj2/gitlet/Repository.java:497-509 | the second loop succeeds exactly when no new target path blocks, and then each is settled while split-point paths are untouched |
| Merging.SettledOutcome | proj2/gitlet/Repository.java:441-509 | when every path is settled the stage finishes into the merged mapping, has changes exactly when that differs from the current one, touched files hold the merged versions and untouched files are as found |
| Merging.ClearByPasses | proj2/gitlet/Repository.java:441-509 | the merge is clear exactly when both loops' conditions hold |
| Merging.MergeCommit | proj2/gitlet/Repository.java:543-560 | the merge commit has the head as parent and the target as merge parent |
| Merging.SomeOrder | proj2/gitlet/Repository.java:441 | some order listing each key once |
| Merging.BothPasses | proj2/gitlet/Repository.java:441-509 | both loops succeed exactly when the merge is clear; the only errors are the untracked-file error and the crash, and only the former when nothing crashes; success gives the merged stage and files |
| Merging.Final | proj2/gitlet/Repository.java:678-692 | moving the conflict files in: every pending file replaces or adds its path and every other working file stays |
| Merging.MergeMessage | proj2/gitlet/Repository.java:527 | the message holds the target and the current branch at fixed offsets, so both can be read back |
| Merging.Conclude | proj2/gitlet/Repository.java:517-560 | after the loops: the conflict files are moved in; no change reports "No changes added to the commit." with refs and store kept; otherwise the merge commit is stored, succeeding exactly when its digest is new, and the current ref moves to it |
| Merging.MergeCommitIsFinish | proj2/gitlet/Repository.java:549 | finishing the merged stage gives the merge commit |
| Merging.ThreeWay | proj2/gitlet/Repository.java:424-535 | the stage file is gone afterwards; when the store is consistent, a refused path rolls the ref and files back (or the crash ends the process), and otherwise the outcome of `Conclude` holds |
| Merging.Links | proj2/gitlet/Repository.java:766-835 | the graph the walks use has exactly the stored commits |
| Merging.ValidLinksResolve | proj2/gitlet/Commit.java:37-38 | in a consistent repository every parent and merge parent in the walk graph is itself a stored commit, so the digest-keyed walk agrees with following the parent objects a commit holds |
| Merging.WalkError | proj2/gitlet/Repository.java:766-835 | the walks' assertion ends the process; the model's own missing-commit failure, which the source has no counterpart for, is an exception |
| Merging.FastForward | proj2/gitlet/Repository.java:413-422 | as written: the ref moves to the target only on success; when the store is consistent, success exactly when nothing blocks and the files are reconciled, failure leaves the ref and creates no file; the stage file is kept |
| Merging.FastForwardCorrected | proj2/gitlet/Repository.java:413-422 | corrected: the same, but success deletes the stage file, so the repository stays valid and the next staging record starts on the new head |
| Merging.MovedHeadValid | proj2/gitlet/Repository.java:413-422 | moving the current branch to a stored commit and deleting the stage keeps the repository valid and makes that commit the head |
| Merging.Merge | proj2/gitlet/Repository.java:384-535 | guards in order: an unreadable stage, pending changes, merging with itself, an unknown branch; a chosen split point is an ancestor of both heads and a latest one (no ancestor of the target is fewer parent steps from the head), and it is the head itself whenever the head is an ancestor of the target, else the head's first parent whenever that is; split equal to the target is refused; split equal to the head fast-forwards; otherwise the three-way outcome holds |
| Merging.FromSplit | proj2/gitlet/Repository.java:408-535 | with the split point known: equal to the target is refused; equal to the head fast-forwards; otherwise the three-way outcome holds |
| Merging.FastForwardStrandsStage | proj2/gitlet/Repository.java:413-422 | a valid, clean repository where the merge takes the fast-forward path without a blocking file, while the stage file names the old head as parent |
| Merging.ExampleStage | proj2/gitlet/Repository.java:385-388 | the example's stage holds no change and sits on the current head |
| Merging.ExampleClear | proj2/gitlet/Repository.java:413-416 | nothing blocks the example's fast-forward |
| Merging.ExampleValid | proj2/gitlet/Repository.java:384-422 | the example repository is valid |
| Merging.ExampleHistory | proj2/gitlet/Repository.java:766-835 | in the example the target has a well-linked history containing the head |

## Left out

- The command line (`Main.java`, `Command.java`), message printing, and the error plumbing (`ErrorHandler.java`, `Errors.java`). Errors are values: `Thrown` for a catchable exception, `Abort` for the end of the process.
- `FinishedCommit.java`, `StagedCommit.java` and `InitialCommit.java`. They are an abandoned hierarchy that cannot compile against `Commit`, and `Commit` with its `staged` flag supersedes them.
- SHA-1 and Java serialization. Digests are an abstract injective hash, and the hexadecimal digest text is not modelled. The object-path, HEAD and log codecs work on plain strings.
- `init`, `log`, `global-log`, `status`, `printStatus` and `printBranches`, and the commit and stage printing: they are output only. Timestamps are integers with no `Date` formatting. The commit digest hashes `Date.toString()`, which keeps whole seconds only, while the model hashes the integer time: two commits in the same second with the same tree, parent and message share a digest in the source but not in the model.
- `restoreFile` (`checkout -- file` and `checkout id -- file`), and abbreviated ids in `getCommit`, which depend on the directory listing order.
- `updateStageFileTo`: it calls `Commit.updateBlobs`, which `Commit` does not define. `switchToBranch` therefore leaves the stage as it is.
- `updateLogsHead`, and the temporary-directory mechanics of `markDiff` and `removeTmp`. Conflict files are one map, which `Merging.Final` moves into the working directory as `moveTmp` does. The merge conflict writes the current side's bytes as the source does, not a conflict marker.
- `ErrorHandler.handleJavaException` and `ErrorHandler.handleGitletException`: `Repository.java`, `Commit.java` and `Command.java` call them, but `ErrorHandler.java` does not define them (it has only `exitWithMessage` and the `handle…` checks for the command line). The model assumes they end the process, which is what `Abort` stands for; this is behind Workspace.Escalate and the store-collision abort in Repository.WriteCommitFiles.
- The other IOException paths, for example `createNewFile` failing on a disk error, and the `deleteOnExit` call in `removeBranch`.
- Directory-listing and hash-map orders: each is a parameter that lists every key once, or an arbitrary choice.
- Branch names containing `/` outside `branch`: the other commands assume ordinary names. `Utils.java` is not part of this model; `Repository.Components` assumes `Utils.join` appends the name to `refs/heads` as a path, which the file system then resolves.
- Repository.CreateNewBranch: a name whose first resolved component is `..` leaves `refs/heads` (`../heads` is refused as existing, `../x` creates `refs/x`); the model ends the process for every such name, and its contract says nothing about them.
- CommitLog.ParseLong: it accepts ASCII digits only, while `Long.parseLong` accepts any Unicode decimal digit (`Character.digit`). Log lines the model writes hold ASCII digits only.
- Graph.CommonAncestor: among several ancestors equally near our head, the source returns the first in its breadth-first order, which queues a commit's first parent before its merge parent. The contract pins this only when our head's first parent is in their set; deeper ties are left open.
- Graph.CommonAncestorOf: the same tie-break is pinned only for our head's first parent.
- Graph.AllAncestors: the walk looks each parent up by digest in the graph of stored commits, while `getAllAncestors` follows the parent objects serialized inside each commit and never reads the store. The two agree in a consistent repository, where every parent is a stored commit (`CommitClosed`, see Merging.ValidLinksResolve); the `Dangling` failure on a parent with no stored commit belongs to the model.
- Graph.CommonAncestor: the same holds for `getCommonAncestor`; its `Dangling` failure belongs to the model, and Merging.WalkError raises it as an exception where the source would walk on.
- `Valid` is a consistency condition, not a reachability one. The model does not prove that every command preserves it, and the example repositories are built directly rather than from `init`.
- Commits.AddToStage: it compares digests, where the source reads the tracked blob back from the store. In a store keyed by digest this is the same, but a missing base blob's exception is not modelled.
- Workspace.RestoreAllFiles: its guarantees hold only under `Ready`. Without that condition a missing blob ends the process, which is modelled, but nothing is promised about the files.
- Checkout.SwitchToBranch: the reconciliation guarantees are conditional on `Ready` for the two commits.
- Checkout.Reset: the reconciliation guarantees are conditional on a valid repository and on `Ready` for the target.
- Checkout.ResetCorrected: the guarantees are conditional on a valid repository.
- Merging.FastForward: the guarantees are conditional on `Ready`.
- Merging.FastForwardCorrected: the guarantees are conditional on `Ready`.
- Merging.ThreeWay: the guarantees are conditional on `MergeReady`.
- Merging.Merge: the guarantees are conditional on a valid repository and on `Ready`/`MergeReady`. It does not prove that a common ancestor always exists, because validity does not require every stored history to be well linked. Among equally near split points, the source's first-parent tie-break is pinned only for the head's first parent.
- LogSearch.ScanWrittenLines: it speaks only of logs the writer could produce (`Writable` entries).
- LogSearch.FindAllReports: it speaks only of written, non-empty logs. An empty log file crashes the scan (`EmptyLogCrashes`).
- LogSearch.FindVerdict: it speaks only of written, non-empty logs.

## Findings

| source | as written | input that shows it | evidently intended | confidence | as-written member | corrected member |
|---|---|---|---|---|---|---|
| proj2/gitlet/Repository.java:252-256 | `found = found \|\| findOneFile(...)` skips every log file after the first one with a match | two branches each holding a commit with message "fix" | every log is scanned and every matching id is printed | not executed | LogSearch.FindMissesSecondBranch | LogSearch.FindAllReports |
| proj2/gitlet/Repository.java:350-373 | the ref is rewritten before `restoreToCommit`, whose `restoreAllFiles` reads the head commit afresh and so compares the target with itself; a failure does not move the ref back | a clean repository on commit one (`f` = 1), reset to commit two (`f` = 2): the untracked-file error, with the ref left at commit two | reconcile from the old head to the target, then move the ref | not executed | Checkout.ResetRefusesCleanTree | Checkout.ResetCorrected |
| proj2/gitlet/Repository.java:1284-1296 | a blob's bytes go to the file name the blob was first read from; blobs with equal bytes share one stored object | files `a` and `b` both holding byte 1; restoring `b` writes `a` and leaves `b` empty | write the bytes at the path being restored | not executed | Workspace.SharedContentLandsElsewhere | Workspace.WriteBlob |
| proj2/gitlet/Repository.java:282-318 | `createNewBranch` writes no log file, and `removeBranch` reads the branch's log unconditionally | `branch x` followed by `rm-branch x`: the process ends and `x` remains | a missing log reads as empty and the branch is removed | not executed | Repository.RemoveFreshBranchCrashes | Repository.CreateThenRemoveBranch |
| proj2/gitlet/Repository.java:413-422 | the fast-forward moves the ref but keeps the stage file, whose record still names the old head as parent | a stage file with no change, then merging a branch one commit ahead: the next commit's parent is the old head | delete the stage file as `reset` and the three-way merge do | not executed | Merging.FastForwardStrandsStage | Merging.FastForwardCorrected |

The corrected write is `WriteBlob` with `atPath` set; Checkout.ResetCorrected passes that flag to Workspace.RestoreAllFiles, so every corrected reset writes each restored file at its own path.
