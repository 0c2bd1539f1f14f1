/**
 * The commands that move the working directory onto another commit:
 * switching branches and resetting the current branch. Both snapshot the
 * working directory first and write it back when the reconciler refuses.
 */
module Checkout {
  import opened Wrappers
  import opened Digests
  import opened Blobs
  import opened Commits
  import opened Store
  import opened Workspace
  import opened Repository

  /** The tracked mapping of a commit that could be read, and nothing otherwise. */
  function TreeOf(c: Result<Commit, Error>): map<Path, Digest> {
    if c.Ok? then c.value.blobs else map[]
  }

  /** The catch block of `switchToBranch` and `reset`: `restoreWorkspace(snapshot)`, which also deletes the stage file. */
  function Rollback(r: Repo, snapshot: Wd): (s: Repo)
    ensures s.stage == None
    ensures forall p :: p in snapshot ==> p in s.wd && s.wd[p] == snapshot[p]
    ensures s.wd.Keys == r.wd.Keys + snapshot.Keys
    ensures s.store == r.store && s.refs == r.refs && s.head == r.head && s.logs == r.logs && s.removedLog == r.removedLog
  {
    r.(wd := RestoreWorkspace(r.wd, snapshot), stage := None)
  }

  /** A caught exception rolls back and is rethrown; anything else ends the process where it stands. */
  function Caught(r: Repo, snapshot: Wd, e: Error): (s: Step)
    ensures s.err == Some(e)
    ensures e.Thrown? ==> s.repo == Rollback(r, snapshot)
    ensures e.Abort? ==> s.repo == r
  {
    if e.Thrown? then Step(Rollback(r, snapshot), Some(e)) else Step(r, Some(e))
  }

  /** Under a valid repository a commit that can be read has its blobs stored, so the reconciler needs nothing more when it writes at the path. */
  lemma StoredTreesReady(r: Repo, target: Commit, head: Commit)
    requires Valid(r)
    requires CommitClosed(r.store, target) && CommitClosed(r.store, head)
    ensures Ready(r.store, target.blobs, head.blobs, true)
  {
  }

  /**
   * `switchToBranch`: refuses the current branch and a branch without a ref
   * file, then reconciles the working directory from the head commit to the
   * branch's head and makes the branch current. `files` is the listing order
   * of the working directory, `order` the iteration order of the branch
   * head's mapping.
   */
  method SwitchToBranch(r: Repo, name: string, files: seq<Path>, order: seq<Path>) returns (s: Step)
    requires Enumerates(files, r.wd.Keys)
    requires BranchHead(r, name).Ok? ==> Enumerates(order, BranchHead(r, name).value.blobs.Keys)
    ensures name == CurrentBranch(r) ==> s == Step(r, Some(Thrown(CheckoutCurrent)))
    ensures name != CurrentBranch(r) && !RefExists(r, name) ==> s == Step(r, Some(Thrown(NoSuchBranch)))
    ensures s.err.None? ==> && s.repo.head == name && s.repo.refs == r.refs && s.repo.store == r.store
                            && s.repo.stage == r.stage && s.repo.logs == r.logs
    ensures s.repo.refs == r.refs && s.repo.store == r.store
    ensures Valid(r) ==> Valid(s.repo)
    ensures Valid(r) && name != r.head && name in r.refs
            && Ready(r.store, TreeOf(BranchHead(r, name)), TreeOf(HeadCommit(r)), false) ==>
              && (s.err.None? <==> Clear(r.wd, TreeOf(BranchHead(r, name)), TreeOf(HeadCommit(r))))
              && (s.err.None? ==> && CurrentBranch(s.repo) == name
                                  && Reconciled(r.wd, s.repo.wd, TreeOf(BranchHead(r, name)), TreeOf(HeadCommit(r))))
              && (s.err.Some? ==> s == Step(r.(stage := None), Some(Thrown(ErrUnstaged))))
  {
    if name == CurrentBranch(r) {
      return Step(r, Some(Thrown(CheckoutCurrent)));
    }
    if !RefExists(r, name) {
      return Step(r, Some(Thrown(NoSuchBranch)));
    }
    var snapshot := r.wd;
    var target := BranchHead(r, name);
    if target.Err? {
      if Valid(r) {
        ValidElsewhere(r, RestoreWorkspace(r.wd, snapshot), r.head, None);
      }
      return Caught(r, snapshot, target.error);
    }
    var head := HeadCommit(r);
    if head.Err? {
      if Valid(r) {
        ValidElsewhere(r, RestoreWorkspace(r.wd, snapshot), r.head, None);
      }
      return Caught(r, snapshot, head.error);
    }
    var wd, err := RestoreAllFiles(r.store, r.wd, target.value.blobs, head.value.blobs, files, order, false);
    if err.Some? {
      if Ready(r.store, target.value.blobs, head.value.blobs, false) {
        RollbackExact(wd, snapshot);
      }
      if Valid(r) {
        ValidElsewhere(r, wd, r.head, r.stage);
        ValidElsewhere(r, RestoreWorkspace(wd, snapshot), r.head, None);
      }
      return Caught(r.(wd := wd), snapshot, err.value);
    }
    if Valid(r) {
      ValidElsewhere(r, wd, name, r.stage);
    }
    return Step(r.(wd := wd, head := name), None);
  }

  /** Validity does not depend on the working directory, survives deleting the stage file, and holds for any ordinary branch with a ref as HEAD. */
  lemma ValidElsewhere(r: Repo, wd: Wd, head: string, stage: Option<StagedRecord>)
    requires Valid(r) && PlainName(head) && head in r.refs && (stage.Some? ==> stage == r.stage)
    ensures Valid(r.(wd := wd, head := head, stage := stage))
  {
  }

  /**
   * `reset` as written. The current branch's ref is rewritten before the
   * working directory is reconciled, and the reconciler reads the head
   * commit afresh, so it reconciles the target against itself: a tracked
   * file whose bytes differ from the target's is reported as being in the
   * way, the ref stays moved, and a file only the old head tracks is kept.
   */
  method Reset(r: Repo, id: Digest, files: seq<Path>, order: seq<Path>) returns (s: Step)
    requires Enumerates(files, r.wd.Keys)
    requires GetCommit(r.store, id).Ok? ==> Enumerates(order, GetCommit(r.store, id).value.blobs.Keys)
    ensures GetCommit(r.store, id).Err? ==> s == Step(r, Some(Thrown(NoSuchCommit)))
    ensures GetCommit(r.store, id).Ok? && StagedCommit(r).Err? ==> s == Step(r, Some(StagedCommit(r).error))
    ensures GetCommit(r.store, id).Ok? && StagedCommit(r).Ok? && HasUnstaged(StagedCommit(r).value, r.wd) ==>
              s == Step(r, Some(Thrown(ErrUnstaged)))
    ensures s.repo.store == r.store && s.repo.head == r.head
    ensures Valid(r) && GetCommit(r.store, id).Ok? && !HasUnstaged(StagedCommit(r).value, r.wd)
            && Ready(r.store, TreeOf(ReadCommit(r.store, id)), TreeOf(ReadCommit(r.store, id)), false) ==>
              var t := TreeOf(ReadCommit(r.store, id));
              && s.repo.refs == r.refs[r.head := id]
              && s.repo.stage.None?
              && (s.err.None? <==> forall p :: p in r.wd && p in t ==> ContentId(r.wd[p]) == t[p])
              && (s.err.None? ==> Reconciled(r.wd, s.repo.wd, t, t)
                                  && forall p :: p in r.wd && p !in t ==> p in s.repo.wd && s.repo.wd[p] == r.wd[p])
              && (s.err.Some? ==> s.err == Some(Thrown(ErrUnstaged)) && s.repo.wd == r.wd)
  {
    var cr := GetCommit(r.store, id);
    if cr.Err? {
      return Step(r, Some(Thrown(NoSuchCommit)));
    }
    var staged := StagedCommit(r);
    if staged.Err? {
      return Step(r, Some(staged.error));
    }
    if HasUnstaged(staged.value, r.wd) {
      return Step(r, Some(Thrown(ErrUnstaged)));
    }
    if Valid(r) {
      MovedRefReadsTarget(r, id);
    }
    s := MoveAndRestore(r, cr.value, files, order);
  }

  /**
   * The part of `reset` after its guards: the ref moves to `c`, then the
   * working directory is reconciled against the head commit read afresh.
   * When that read finds `c`, the reconciliation runs from `c` to itself.
   */
  method MoveAndRestore(r: Repo, c: Commit, files: seq<Path>, order: seq<Path>) returns (s: Step)
    requires Enumerates(files, r.wd.Keys) && Enumerates(order, c.blobs.Keys)
    ensures s.repo.store == r.store && s.repo.head == r.head
    ensures HeadCommit(r.(refs := r.refs[CurrentBranch(r) := c.Sha()])) == Ok(c) && Ready(r.store, c.blobs, c.blobs, false) ==>
              && s.repo.refs == r.refs[CurrentBranch(r) := c.Sha()]
              && s.repo.stage.None?
              && (s.err.None? <==> forall p :: p in r.wd && p in c.blobs ==> ContentId(r.wd[p]) == c.blobs[p])
              && (s.err.None? ==> Reconciled(r.wd, s.repo.wd, c.blobs, c.blobs)
                                  && forall p :: p in r.wd && p !in c.blobs ==> p in s.repo.wd && s.repo.wd[p] == r.wd[p])
              && (s.err.Some? ==> s.err == Some(Thrown(ErrUnstaged)) && s.repo.wd == r.wd)
  {
    var snapshot := r.wd;
    var moved := r.(refs := r.refs[CurrentBranch(r) := c.Sha()]);
    var head := HeadCommit(moved);
    if head.Err? {
      // The catch block reads the head commit again, fails the same way, and never restores.
      return Step(moved, Some(head.error));
    }
    var wd, err := RestoreAllFiles(r.store, r.wd, c.blobs, head.value.blobs, files, order, false);
    if err.Some? {
      if Ready(r.store, c.blobs, head.value.blobs, false) {
        RollbackExact(wd, snapshot);
      }
      return Caught(moved.(wd := wd), snapshot, err.value);
    }
    ClearAgainstItself(r.wd, c.blobs);
    return Step(moved.(wd := wd, stage := None), None);
  }

  /** Rewriting the current branch's ref to a stored commit's digest makes that commit the head commit. */
  lemma MovedRefReadsTarget(r: Repo, id: Digest)
    requires Valid(r) && GetCommit(r.store, id).Ok?
    ensures GetCommit(r.store, id).value.Sha() == id
    ensures CurrentBranch(r) == r.head
    ensures HeadCommit(r.(refs := r.refs[CurrentBranch(r) := GetCommit(r.store, id).value.Sha()])) == Ok(GetCommit(r.store, id).value)
  {
    ValidReads(r);
    assert ObjSha(r.store[id]) == id;
  }

  /** Reconciling a commit against itself is blocked exactly by a tracked file whose bytes differ from the commit's. */
  lemma ClearAgainstItself(wd: Wd, t: map<Path, Digest>)
    ensures Clear(wd, t, t) <==> forall p :: p in wd && p in t ==> ContentId(wd[p]) == t[p]
  {
  }

  /** `readCommitObject` on a digest, with the error lifted to a command error. */
  function ReadCommit(st: Objects, id: Digest): (c: Result<Commit, Error>)
    ensures c.Ok? <==> GetCommit(st, id).Ok?
    ensures c.Ok? ==> c.value == GetCommit(st, id).value
  {
    match GetCommit(st, id)
    case Ok(c) => Ok(c)
    case Err(msg) => Err(Thrown(msg))
  }

  /**
   * `reset` as evidently intended: the working directory is reconciled from
   * the old head commit to the target, each blob is written at the path
   * being restored, and the ref is moved only once that succeeded.
   */
  method ResetCorrected(r: Repo, id: Digest, files: seq<Path>, order: seq<Path>) returns (s: Step)
    requires Enumerates(files, r.wd.Keys)
    requires GetCommit(r.store, id).Ok? ==> Enumerates(order, GetCommit(r.store, id).value.blobs.Keys)
    ensures GetCommit(r.store, id).Err? ==> s == Step(r, Some(Thrown(NoSuchCommit)))
    ensures GetCommit(r.store, id).Ok? && StagedCommit(r).Err? ==> s == Step(r, Some(StagedCommit(r).error))
    ensures GetCommit(r.store, id).Ok? && StagedCommit(r).Ok? && HasUnstaged(StagedCommit(r).value, r.wd) ==>
              s == Step(r, Some(Thrown(ErrUnstaged)))
    ensures s.repo.store == r.store && s.repo.head == r.head
    ensures Valid(r) && GetCommit(r.store, id).Ok? && !HasUnstaged(StagedCommit(r).value, r.wd) ==>
              var t := TreeOf(ReadCommit(r.store, id));
              var h := TreeOf(HeadCommit(r));
              && (s.err.None? <==> Clear(r.wd, t, h))
              && (s.err.None? ==> s.repo.refs == r.refs[r.head := id] && s.repo.stage.None? && Reconciled(r.wd, s.repo.wd, t, h))
              && (s.err.Some? ==> s == Step(r.(stage := None), Some(Thrown(ErrUnstaged))))
    ensures Valid(r) && r.stage.None? && GetCommit(r.store, id).Ok? && !HasUnstaged(StagedCommit(r).value, r.wd) ==>
              s.err.None? && s.repo.refs == r.refs[r.head := id]
  {
    var cr := GetCommit(r.store, id);
    if cr.Err? {
      return Step(r, Some(Thrown(NoSuchCommit)));
    }
    var staged := StagedCommit(r);
    if staged.Err? {
      return Step(r, Some(staged.error));
    }
    if HasUnstaged(staged.value, r.wd) {
      return Step(r, Some(Thrown(ErrUnstaged)));
    }
    var c := cr.value;
    var snapshot := r.wd;
    var head := HeadCommit(r);
    if head.Err? {
      return Caught(r, snapshot, head.error);
    }
    if Valid(r) {
      ValidReads(r);
      assert ObjSha(r.store[id]) == id;
      StoredTreesReady(r, c, head.value);
      if r.stage.None? {
        CleanTreeNeverBlocks(r, c.blobs);
      }
    }
    var wd, err := RestoreAllFiles(r.store, r.wd, c.blobs, head.value.blobs, files, order, true);
    if err.Some? {
      if Ready(r.store, c.blobs, head.value.blobs, true) {
        RollbackExact(wd, snapshot);
      }
      return Caught(r.(wd := wd), snapshot, err.value);
    }
    return Step(r.(refs := r.refs[CurrentBranch(r) := c.Sha()], wd := wd, stage := None), None);
  }

  /**
   * With no stage file, the untracked-changes guard passing means every
   * working file is tracked by the head commit with exactly its bytes, so no
   * working file can stop a reconciliation away from the head commit.
   */
  lemma CleanTreeNeverBlocks(r: Repo, target: map<Path, Digest>)
    requires Valid(r) && r.stage.None?
    requires !HasUnstaged(StagedCommit(r).value, r.wd)
    ensures Clear(r.wd, target, TreeOf(HeadCommit(r)))
  {
    ValidReads(r);
    var s := StagedCommit(r).value;
    var h := TreeOf(HeadCommit(r));
    forall p | p in r.wd
      ensures !Blocks(r.wd, target, h, p)
    {
      assert !UnstagedAt(s, r.wd, p);
      assert Blob(p, r.wd[p]).Id() == ContentId(r.wd[p]);
    }
  }

  /** Two commits on `master` tracking `f` as the byte 1 and then the byte 2; HEAD at the first, `f` holding 1, no stage file. */
  function ResetExample(): Repo {
    var one := Blob("f", [1]);
    var two := Blob("f", [2]);
    var first := Finished(map["f" := one.Id()], None, None, DefaultBranch, "one", 1);
    var second := Finished(map["f" := two.Id()], None, None, DefaultBranch, "two", 2);
    Repo(map[one.Id() := BlobObj(one), two.Id() := BlobObj(two),
             first.Sha() := CommitObj(first), second.Sha() := CommitObj(second)],
         map[DefaultBranch := first.Sha()], DefaultBranch, None, map["f" := [1]], map[], None)
  }

  /** The digest of the second commit of the example. */
  function ResetExampleTarget(): Digest {
    CommitHash(map["f" := Blob("f", [2]).Id()], Zero, "two", 2)
  }

  /**
   * Resetting the example to its second commit: the repository is valid and
   * clean, so the guard passes and the corrected reset succeeds, yet `f`
   * blocks the reconciliation as written, which therefore fails with the
   * untracked-file error after the ref has been moved.
   */
  lemma ResetRefusesCleanTree()
    ensures var r := ResetExample();
            var t := TreeOf(ReadCommit(r.store, ResetExampleTarget()));
            && Valid(r) && GetCommit(r.store, ResetExampleTarget()).Ok?
            && !HasUnstaged(StagedCommit(r).value, r.wd)
            && Ready(r.store, t, t, false)
            && "f" in r.wd && "f" in t && ContentId(r.wd["f"]) != t["f"]
  {
    var r := ResetExample();
    ResetExampleValid();
    ValidReads(r);
    ResetExampleClean();
    var second := Finished(map["f" := Blob("f", [2]).Id()], None, None, DefaultBranch, "two", 2);
    assert second.Sha() == ResetExampleTarget();
    assert r.store[ResetExampleTarget()] == CommitObj(second);
  }

  /** The reset example is a consistent repository. */
  lemma ResetExampleValid()
    ensures Valid(ResetExample())
  {
    var r := ResetExample();
    var one := Blob("f", [1]);
    var two := Blob("f", [2]);
    var first := Finished(map["f" := one.Id()], None, None, DefaultBranch, "one", 1);
    var second := Finished(map["f" := two.Id()], None, None, DefaultBranch, "two", 2);
    assert r.store.Keys == {one.Id(), two.Id(), first.Sha(), second.Sha()};
    assert KeyedByDigest(r.store);
    assert CommitClosed(r.store, first) && CommitClosed(r.store, second);
  }

  /** The working directory of the reset example matches its head commit. */
  lemma ResetExampleClean()
    ensures var r := ResetExample();
            StagedCommit(r).Ok? && !HasUnstaged(StagedCommit(r).value, r.wd)
  {
    var r := ResetExample();
    var one := Blob("f", [1]);
    var first := Finished(map["f" := one.Id()], None, None, DefaultBranch, "one", 1);
    assert HeadCommit(r) == Ok(first);
    var staged := StagedCommit(r).value;
    assert staged.blobs == map["f" := one.Id()];
    assert !UnstagedAt(staged, r.wd, "f");
    assert Tracked(staged) == {"f"};
  }
}
