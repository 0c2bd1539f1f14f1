/**
 * The commit record. One record type serves both as a finished, immutable
 * snapshot and as the single mutable staging area; the model makes the two
 * roles two constructors of one datatype.
 */
module Commits {
  import opened Wrappers
  import opened Digests
  import opened Blobs

  const InitMessage: string := "initial commit"
  /** `new Date(0)`: the epoch, in milliseconds. */
  const InitTimestamp: int := 0
  const DefaultBranch: string := "master"
  /** The branch label every staging record carries. */
  const StagedBranch: string := "staged"

  datatype Commit =
    /** A staging record: the parent's mapping plus pending additions and removals. */
    | Staged(blobs: map<Path, Digest>, added: map<Path, Blob>, removed: set<Path>, parent: Option<Digest>)
    /** A finished commit; `parent` and `mergeParent` are digests resolved through the object store. */
    | Finished(blobs: map<Path, Digest>, parent: Option<Digest>, mergeParent: Option<Digest>,
               branch: string, message: string, timestamp: int)
  {
    /** The commit's digest; a staging record carries the forty-zero sentinel. */
    function Sha(): Digest {
      match this
      case Staged(_, _, _, _) => Zero
      case Finished(blobs, parent, _, _, message, timestamp) =>
        CommitHash(blobs, parent.GetOr(Zero), message, timestamp)
    }

    function Branch(): string {
      if Staged? then StagedBranch else branch
    }
  }

  /** The staging discipline add and remove keep: each pending blob is filed under its own name, and no path is both added and removed. */
  ghost predicate StageWf(s: Commit) {
    && s.Staged?
    && (forall p :: p in s.added ==> s.added[p].filename == p)
    && s.added.Keys !! s.removed
  }

  /** Paths the stage will track once finished, before `added` is overlaid: the base minus `removed`. */
  function Tracked(s: Commit): set<Path>
    requires s.Staged?
  {
    (s.blobs.Keys + s.added.Keys) - s.removed
  }

  /** `Commit.equals`: a commit equals another object exactly when that object is a commit with the same digest. */
  function SameCommit(c: Commit, other: Option<Commit>): (r: bool)
    ensures other.None? ==> !r
    ensures other.Some? && c.Finished? && other.value.Finished? ==>
              (r <==> && c.blobs == other.value.blobs
                      && c.parent.GetOr(Zero) == other.value.parent.GetOr(Zero)
                      && c.message == other.value.message
                      && c.timestamp == other.value.timestamp)
    ensures other.Some? && c.Staged? && other.value.Staged? ==> r
    ensures other.Some? && c.Staged? != other.value.Staged? ==> !r
  {
    other.Some? && other.value.Sha() == c.Sha()
  }

  /** `createStagedCommit`: an empty staging record on top of `parent`. */
  function CreateStaged(parent: Commit): (r: Commit)
    ensures StageWf(r)
    ensures r.blobs == parent.blobs && r.added == map[] && r.removed == {}
    ensures r.parent == Some(parent.Sha())
    ensures r.Sha() == Zero && r.Branch() == StagedBranch
  {
    Staged(parent.blobs, map[], {}, Some(parent.Sha()))
  }

  /** The digests of the pending blobs, by path. */
  function AddedDigests(s: Commit): (m: map<Path, Digest>)
    requires s.Staged?
    ensures m.Keys == s.added.Keys
    ensures forall p :: p in m ==> m[p] == s.added[p].Id()
  {
    map p | p in s.added :: s.added[p].Id()
  }

  /**
   * `finishCommit`: the new mapping drops every removed path from the base
   * and then overlays every added blob, so an added path wins over a removal.
   */
  function Finish(s: Commit, branch: string, message: string, timestamp: int, target: Option<Digest>): (r: Commit)
    requires s.Staged?
    ensures r.Finished?
    ensures forall p :: p in r.blobs <==> p in s.added || (p in s.blobs && p !in s.removed)
    ensures forall p :: p in s.added ==> r.blobs[p] == s.added[p].Id()
    ensures forall p :: p in s.blobs && p !in s.added && p !in s.removed ==> r.blobs[p] == s.blobs[p]
    ensures r.parent == s.parent && r.mergeParent == target
    ensures r.branch == branch && r.message == message && r.timestamp == timestamp
  {
    Finished((s.blobs - s.removed) + AddedDigests(s), s.parent, target, branch, message, timestamp)
  }

  /** `createInitCommit`: the root of every history. */
  function InitCommit(): (r: Commit)
    ensures r.Finished? && r.blobs == map[] && r.parent.None? && r.mergeParent.None?
    ensures r.message == InitMessage && r.timestamp == InitTimestamp && r.branch == DefaultBranch
    ensures r.Sha() == CommitHash(map[], Zero, InitMessage, InitTimestamp)
  {
    Finish(Staged(map[], map[], {}, None), DefaultBranch, InitMessage, InitTimestamp, None)
  }

  /** The branch label and the merge parent do not enter a commit's digest. */
  lemma FinishDigestInputs(s: Commit, b1: string, b2: string, m: string, t: int, x: Option<Digest>, y: Option<Digest>)
    requires s.Staged?
    ensures Finish(s, b1, m, t, x).Sha() == Finish(s, b2, m, t, y).Sha()
    ensures Finish(s, b1, m, t, x).Sha() == CommitHash(Finish(s, b1, m, t, x).blobs, s.parent.GetOr(Zero), m, t)
  {
  }

  /** With nothing staged, finishing reproduces the base mapping. */
  lemma FinishUnchanged(s: Commit, b: string, m: string, t: int, x: Option<Digest>)
    requires s.Staged? && !HasStagedChanges(s)
    ensures Finish(s, b, m, t, x).blobs == s.blobs
  {
    var r := Finish(s, b, m, t, x);
    assert r.blobs.Keys == s.blobs.Keys;
  }

  /**
   * `addToStage`: a blob equal to the one already staged changes nothing;
   * otherwise the path is staged exactly when the blob differs from the base.
   */
  function AddToStage(s: Commit, blob: Blob): (r: (bool, Commit))
    requires s.Staged?
    ensures r.1.Staged? && r.1.blobs == s.blobs && r.1.removed == s.removed && r.1.parent == s.parent
    ensures !r.0 <==> blob.filename in s.added && s.added[blob.filename].data == blob.data
    ensures !r.0 ==> r.1 == s
    ensures r.0 ==> (blob.filename in r.1.added <==> Get(s.blobs, blob.filename) != Some(blob.Id()))
    ensures r.0 && blob.filename in r.1.added ==> r.1.added[blob.filename] == blob
    ensures r.1.added - {blob.filename} == s.added - {blob.filename}
  {
    var f := blob.filename;
    var stagedBlob := Get(s.added, f);
    if stagedBlob.None? || !Blobs.Equals(blob, stagedBlob) then
      if Get(s.blobs, f) == Some(blob.Id()) then
        (true, s.(added := s.added - {f}))
      else
        (true, s.(added := s.added[f := blob]))
    else
      (false, s)
  }

  /** Adding the same blob twice leaves the stage as the first call left it; a blob differing from the base is reported unchanged the second time. */
  lemma AddToStageIdempotent(s: Commit, blob: Blob)
    requires s.Staged?
    ensures AddToStage(AddToStage(s, blob).1, blob).1 == AddToStage(s, blob).1
    ensures Get(s.blobs, blob.filename) != Some(blob.Id()) ==> !AddToStage(AddToStage(s, blob).1, blob).0
  {
  }

  /** `readdFromRemoved`: takes a path out of `removed`, reporting whether it was there. */
  function ReaddFromRemoved(s: Commit, f: Path): (r: (bool, Commit))
    requires s.Staged?
    ensures r.0 <==> f in s.removed
    ensures r.1 == s.(removed := s.removed - {f})
    ensures f !in r.1.removed
  {
    (f in s.removed, s.(removed := s.removed - {f}))
  }

  /**
   * `removeFromAll`: a tracked path is marked removed and unstaged; an
   * untracked one is only unstaged, reporting whether it had been staged.
   */
  function RemoveFromAll(s: Commit, f: Path): (r: (bool, Commit))
    requires s.Staged?
    ensures r.1.Staged? && r.1.blobs == s.blobs && r.1.parent == s.parent
    ensures r.1.added == s.added - {f}
    ensures f in s.blobs ==> r.0 && r.1.removed == s.removed + {f}
    ensures f !in s.blobs ==> (r.0 <==> f in s.added) && r.1.removed == s.removed
    ensures StageWf(s) ==> StageWf(r.1)
  {
    if f in s.blobs then
      (true, s.(removed := s.removed + {f}, added := s.added - {f}))
    else
      (f in s.added, s.(added := s.added - {f}))
  }

  /** `removeFromCommit`: marks a tracked path removed, leaving `added` alone. */
  function RemoveFromCommit(s: Commit, f: Path): (r: (bool, Commit))
    requires s.Staged?
    ensures r.0 <==> f in s.blobs
    ensures r.1.Staged? && r.1.blobs == s.blobs && r.1.added == s.added && r.1.parent == s.parent
    ensures r.1.removed == if f in s.blobs then s.removed + {f} else s.removed
  {
    if f in s.blobs then (true, s.(removed := s.removed + {f})) else (false, s)
  }

  /** `removeFromStage`: unstages a path, reporting whether it had been staged. */
  function RemoveFromStage(s: Commit, f: Path): (r: (bool, Commit))
    requires s.Staged?
    ensures r.0 <==> f in s.added
    ensures r.1.Staged? && r.1.blobs == s.blobs && r.1.removed == s.removed && r.1.parent == s.parent
    ensures r.1.added == s.added - {f}
    ensures StageWf(s) ==> StageWf(r.1)
  {
    (f in s.added, s.(added := s.added - {f}))
  }

  /** Staging a path the base does not track and then removing it restores the stage. */
  lemma AddThenRemoveUntracked(s: Commit, blob: Blob)
    requires s.Staged? && blob.filename !in s.blobs && blob.filename !in s.added
    ensures RemoveFromAll(AddToStage(s, blob).1, blob.filename) == (true, s)
  {
    var f := blob.filename;
    var a := AddToStage(s, blob).1;
    assert a.added == s.added[f := blob];
    assert a.added - {f} == s.added;
  }

  /** `hasStagedChanges`. */
  function HasStagedChanges(s: Commit): (r: bool)
    requires s.Staged?
    ensures r <==> exists p :: p in s.added || p in s.removed
  {
    assert s.added != map[] ==> exists p :: p in s.added;
    assert s.removed != {} ==> exists p :: p in s.removed;
    s.added != map[] || s.removed != {}
  }

  /** `isBlobModified`: compares against the staged blob when there is one, else the base. */
  function IsBlobModified(s: Commit, blob: Blob): (r: bool)
    requires s.Staged?
    ensures blob.filename in s.added ==> (r <==> s.added[blob.filename].data != blob.data)
    ensures blob.filename !in s.added ==> (r <==> blob.filename in s.blobs && s.blobs[blob.filename] != blob.Id())
  {
    var f := blob.filename;
    if f in s.added then !Blobs.Equals(s.added[f], Some(blob))
    else if f in s.blobs then s.blobs[f] != blob.Id()
    else false
  }

  /** `isFileNew`: removed, or neither staged nor tracked. */
  function IsFileNew(s: Commit, f: Path): (r: bool)
    requires s.Staged?
    ensures r ==> f !in s.added || f in s.removed
    ensures !r <==> f !in s.removed && (f in s.added || f in s.blobs)
  {
    f in s.removed || (f !in s.added && f !in s.blobs)
  }

  /** `getAllDeleted`: tracked or staged paths that are not among `files`. */
  function GetAllDeleted(s: Commit, files: set<Path>): (r: set<Path>)
    requires s.Staged?
    ensures forall p :: p in r <==> (p in s.blobs || p in s.added) && p !in files
  {
    (s.blobs.Keys + s.added.Keys) - files
  }

  datatype UnstagedStatus = Deleted | Modified | New

  /** The verdict `getUnstaged` reaches for a working file: the staged blob is consulted before the base. */
  function WorkingStatus(s: Commit, wd: map<Path, Bytes>, p: Path): Option<UnstagedStatus>
    requires s.Staged? && p in wd
  {
    var here := Blob(p, wd[p]);
    if p in s.added then
      (if !Blobs.Equals(here, Some(s.added[p])) then Some(Modified) else None)
    else if p in s.blobs then
      (if s.blobs[p] != here.Id() then Some(Modified) else None)
    else if p in s.removed then Some(New)
    else Some(New)
  }

  /** `getUnstaged`: every working-file verdict, plus DELETED for each tracked path missing from the working directory. */
  function GetUnstaged(s: Commit, wd: map<Path, Bytes>): (r: map<Path, UnstagedStatus>)
    requires s.Staged?
    ensures forall p :: p in r && r[p] == Deleted <==> p !in wd && p in Tracked(s)
    ensures forall p :: p in wd ==> (p in r && r[p] == New <==> p !in s.added && p !in s.blobs)
    ensures forall p :: p in wd ==>
              (p in r && r[p] == Modified <==>
                 || (p in s.added && s.added[p].data != wd[p])
                 || (p !in s.added && p in s.blobs && s.blobs[p] != BlobHash(|wd[p]|, wd[p])))
    ensures forall p :: p in r ==> p in wd || p in Tracked(s)
  {
    var working := map p | p in wd && WorkingStatus(s, wd, p).Some? :: WorkingStatus(s, wd, p).value;
    var deleted := map p | p in Tracked(s) && p !in wd :: Deleted;
    working + deleted
  }

  /** For a working file that is not staged for removal, `isFileNew` agrees with the `New` category of `getUnstaged`. */
  lemma FileNewIsUnstagedNew(s: Commit, wd: map<Path, Bytes>, f: Path)
    requires s.Staged? && f in wd && f !in s.removed
    ensures IsFileNew(s, f) <==> f in GetUnstaged(s, wd) && GetUnstaged(s, wd)[f] == New
  {
  }

  /** The verdict `hasUnstaged` reaches for a working file: the base is consulted before the staged blob. */
  predicate UnstagedAt(s: Commit, wd: map<Path, Bytes>, p: Path)
    requires s.Staged? && p in wd
  {
    var here := Blob(p, wd[p]);
    if p in s.blobs then s.blobs[p] != here.Id()
    else if p in s.added then !Blobs.Equals(here, Some(s.added[p]))
    else true
  }

  /** `hasUnstaged`: some working file has an unstaged verdict, or a tracked path is missing. */
  function HasUnstaged(s: Commit, wd: map<Path, Bytes>): (r: bool)
    requires s.Staged?
    ensures r <==> (exists p :: p in wd && UnstagedAt(s, wd, p)) || (exists p :: p in Tracked(s) && p !in wd)
  {
    (exists p | p in wd :: UnstagedAt(s, wd, p)) || (exists p | p in Tracked(s) :: p !in wd)
  }

  /** The two orders agree on a path unless it is both staged and tracked and the working file matches exactly one of the two blobs. */
  ghost predicate OrdersAgree(s: Commit, wd: map<Path, Bytes>)
    requires s.Staged?
  {
    forall p :: p in wd && p in s.added && p in s.blobs ==>
      (s.added[p].data == wd[p] <==> s.blobs[p] == BlobHash(|wd[p]|, wd[p]))
  }

  /** Where the two orders agree, `hasUnstaged` holds exactly when `getUnstaged` reports something. */
  lemma {:induction false} UnstagedChecksAgree(s: Commit, wd: map<Path, Bytes>)
    requires s.Staged? && OrdersAgree(s, wd)
    ensures HasUnstaged(s, wd) <==> GetUnstaged(s, wd) != map[]
  {
    var u := GetUnstaged(s, wd);
    if HasUnstaged(s, wd) {
      if p :| p in wd && UnstagedAt(s, wd, p) {
        assert p in u;
      } else {
        var p :| p in Tracked(s) && p !in wd;
        assert p in u;
      }
    }
    if u != map[] {
      var p :| p in u;
      if p in wd {
        assert UnstagedAt(s, wd, p);
      } else {
        assert p in Tracked(s);
      }
    }
  }

  /** A staged edit whose working file still holds the staged bytes: `getUnstaged` reports nothing, `hasUnstaged` reports a change. */
  lemma StagedEditDisagreement()
    ensures var s := Staged(map["f" := BlobHash(1, [1])], map["f" := Blob("f", [2])], {}, None);
            var wd := map["f" := [2 as Byte]];
            GetUnstaged(s, wd) == map[] && HasUnstaged(s, wd)
  {
    var s := Staged(map["f" := BlobHash(1, [1])], map["f" := Blob("f", [2])], {}, None);
    var wd := map["f" := [2 as Byte]];
    assert Tracked(s) == {"f"};
    assert UnstagedAt(s, wd, "f");
    assert GetUnstaged(s, wd).Keys == {};
  }

  /** A staged edit whose working file went back to the base bytes: `getUnstaged` reports it modified, `hasUnstaged` reports nothing. */
  lemma RevertedEditDisagreement()
    ensures var s := Staged(map["f" := BlobHash(1, [1])], map["f" := Blob("f", [2])], {}, None);
            var wd := map["f" := [1 as Byte]];
            GetUnstaged(s, wd) == map["f" := Modified] && !HasUnstaged(s, wd)
  {
    var s := Staged(map["f" := BlobHash(1, [1])], map["f" := Blob("f", [2])], {}, None);
    var wd := map["f" := [1 as Byte]];
    assert Tracked(s) == {"f"};
    assert !UnstagedAt(s, wd, "f");
    assert GetUnstaged(s, wd).Keys == {"f"};
  }
}
