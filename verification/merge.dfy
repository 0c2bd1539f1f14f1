/**
 * `merge`: joins the head of another branch into the current branch. After
 * its guards it finds a split point in the commit graph, fast-forwards when
 * the split point is the head commit, and otherwise walks the paths of the
 * split point and then those of the target, staging and restoring what only
 * the target changed. A path both sides changed keeps the current branch's
 * version.
 */
module Merging {
  import opened Wrappers
  import opened Digests
  import opened Blobs
  import opened Commits
  import opened Store
  import opened Workspace
  import opened Repository
  import opened Checkout
  import Graph
  import MergeStatus

  const Uncommitted: string := "You have uncommitted changes."
  const MergeItself: string := "Cannot merge a branch with itself."
  const GivenIsAncestor: string := "Given branch is an ancestor of the current branch."

  /** The message of a merge commit. */
  /** Both branch names can be read back from the message at fixed offsets. */
  function MergeMessage(target: string, current: string): (m: string)
    ensures |m| == |target| + |current| + 14
    ensures m[7..7 + |target|] == target && m[|m| - 1 - |current|..|m| - 1] == current
  {
    "Merged " + target + " into " + current + "."
  }

  /** The version of `p` a three-way merge keeps: the target's when only the target changed it since the split point, else the current branch's. */
  function MergedAt(split: map<Path, Digest>, target: map<Path, Digest>, ours: map<Path, Digest>, p: Path): Option<Digest> {
    if Get(ours, p) == Get(split, p) && Get(target, p) != Get(split, p) then Get(target, p) else Get(ours, p)
  }

  /**
   * The merged version, by the status of a path the split point has, and
   * for the other paths: status 1 takes the target's blob, status 6 drops
   * the path, the rest keep the current branch's; a path new since the
   * split point comes from the target only when the current branch lacks it.
   */
  lemma MergedByStatus(split: map<Path, Digest>, target: map<Path, Digest>, ours: map<Path, Digest>, p: Path)
    ensures p in split && MergeStatus.Status(split[p], Get(target, p), Get(ours, p)) == 1 ==>
              p in target && MergedAt(split, target, ours, p) == Some(target[p])
    ensures p in split && MergeStatus.Status(split[p], Get(target, p), Get(ours, p)) == 6 ==>
              MergedAt(split, target, ours, p).None? && p in ours
    ensures p in split && MergeStatus.Status(split[p], Get(target, p), Get(ours, p)) in {2, 3, 7, 8} ==>
              MergedAt(split, target, ours, p) == Get(ours, p)
    ensures p !in split && p !in ours ==> MergedAt(split, target, ours, p) == Get(target, p)
    ensures p !in split && p in ours ==> MergedAt(split, target, ours, p) == Some(ours[p])
  {
  }

  /** The merged mapping, path by path. */
  function MergedTree(split: map<Path, Digest>, target: map<Path, Digest>, ours: map<Path, Digest>): (m: map<Path, Digest>)
    ensures forall p :: Get(m, p) == MergedAt(split, target, ours, p)
  {
    map p | p in split.Keys + target.Keys + ours.Keys && MergedAt(split, target, ours, p).Some?
      :: MergedAt(split, target, ours, p).value
  }

  /** The mapping a staging record finishes into, path by path: a pending blob wins, a removal drops the path, anything else keeps the base. */
  function Tree(s: Commit): (t: map<Path, Digest>)
    requires s.Staged?
    ensures forall p :: Get(t, p) == if p in s.added then Some(s.added[p].Id()) else if p in s.removed then None else Get(s.blobs, p)
  {
    (s.blobs - s.removed) + AddedDigests(s)
  }

  /** The merge walks the working directory and a directory of pending conflict files side by side. */
  datatype Pass = Pass(wd: Wd, tmp: Wd, staged: StagedRecord)

  /** The working directory once the conflict files have been moved in. */
  function Final(ps: Pass): (w: Wd)
    ensures w.Keys == ps.wd.Keys + ps.tmp.Keys
    ensures forall p :: p in ps.tmp ==> w[p] == ps.tmp[p]
    ensures forall p :: p in ps.wd && p !in ps.tmp ==> w[p] == ps.wd[p]
  {
    ps.wd + ps.tmp
  }

  /** A working directory holds the content `d` names at `p`, or lacks `p` when `d` is absent. */
  ghost predicate Holds(w: Wd, p: Path, d: Option<Digest>) {
    if d.Some? then Get(w, p).Some? && ContentId(Get(w, p).value) == d.value else Get(w, p).None?
  }

  /** What the merge needs of the store: digests file their objects, every blob the three commits name is stored, and each target blob was read from its own path. */
  ghost predicate MergeReady(st: Objects, split: map<Path, Digest>, target: map<Path, Digest>, ours: map<Path, Digest>) {
    Ready(st, target, ours, false) && Ready(st, split, map[], true)
  }

  /** A path the target changed while the current branch deleted it: `readBlobObject(null)` throws a `NullPointerException`. */
  predicate Crashes(split: map<Path, Digest>, target: map<Path, Digest>, ours: map<Path, Digest>, p: Path) {
    p in split && p !in ours && p in target && target[p] != split[p]
  }

  /** The merge touches `p`: it changes its version, or both sides changed it differently and the current branch's bytes are written back. */
  predicate Touched(split: map<Path, Digest>, target: map<Path, Digest>, ours: map<Path, Digest>, p: Path) {
    || MergedAt(split, target, ours, p) != Get(ours, p)
    || (p in split && p in ours && MergeStatus.Status(split[p], Get(target, p), Get(ours, p)) == 8)
  }

  /**
   * `testUnstaged` refuses `p`: it was among the working files when the merge
   * began and its bytes differ from the blob it is compared with (the split
   * point's when the target's version is taken, the current branch's for a
   * conflict, the target's for a path new in the target).
   */
  predicate MergeBlocks(w: Wd, cwd: set<Path>, split: map<Path, Digest>, target: map<Path, Digest>, ours: map<Path, Digest>, p: Path) {
    var g := Get(w, p);
    p in cwd && g.Some? &&
    var id := ContentId(g.value);
    if p in split then
      var status := MergeStatus.Status(split[p], Get(target, p), Get(ours, p));
      ((status == 1 || status == 6) && id != split[p]) || (status == 8 && p in ours && id != ours[p])
    else p !in ours && p in target && id != target[p]
  }

  /** Every path passes `testUnstaged` and none crashes the walk. */
  ghost predicate MergeClear(wd0: Wd, split: map<Path, Digest>, target: map<Path, Digest>, ours: map<Path, Digest>) {
    forall p :: !MergeBlocks(wd0, wd0.Keys, split, target, ours, p) && !Crashes(split, target, ours, p)
  }

  /** Two states of the walk agree at `x`: same working file, conflict file, pending blob and removal mark. */
  ghost predicate SameAt(a: Pass, b: Pass, x: Path) {
    && Get(a.wd, x) == Get(b.wd, x) && Get(a.tmp, x) == Get(b.tmp, x)
    && Get(a.staged.added, x) == Get(b.staged.added, x) && (x in a.staged.removed <==> x in b.staged.removed)
  }

  /** The walk has not yet touched `p`: the working file is as the merge found it and nothing is pending for it. */
  ghost predicate Fresh(ps: Pass, wd0: Wd, p: Path) {
    Get(ps.wd, p) == Get(wd0, p) && p !in ps.tmp && p !in ps.staged.added && p !in ps.staged.removed
  }

  /**
   * The walk is done with `p`: the stage finishes `p` into its merged
   * version, holds something for `p` exactly when that version differs from
   * the current branch's, and the working file holds the merged version when
   * the merge touches `p` and is as the merge found it otherwise.
   */
  ghost predicate Settled(ps: Pass, wd0: Wd, split: map<Path, Digest>, target: map<Path, Digest>, ours: map<Path, Digest>, p: Path)
    requires ps.staged.Staged?
  {
    && Get(Tree(ps.staged), p) == MergedAt(split, target, ours, p)
    && ((p in ps.staged.added || p in ps.staged.removed) <==> MergedAt(split, target, ours, p) != Get(ours, p))
    && (Touched(split, target, ours, p) ==> Holds(Final(ps), p, MergedAt(split, target, ours, p)))
    && (!Touched(split, target, ours, p) ==> Get(ps.wd, p) == Get(wd0, p) && p !in ps.tmp)
  }

  /** One step of the walk settles `p` and leaves every other path alone. */
  ghost predicate StepEffect(ps: Pass, next: Pass, split: map<Path, Digest>, target: map<Path, Digest>, ours: map<Path, Digest>, p: Path)
    requires next.staged.Staged?
  {
    && (forall x :: x != p ==> SameAt(ps, next, x))
    && Get(Tree(next.staged), p) == MergedAt(split, target, ours, p)
    && ((p in next.staged.added || p in next.staged.removed) <==> MergedAt(split, target, ours, p) != Get(ours, p))
    && (Touched(split, target, ours, p) ==> Holds(Final(next), p, MergedAt(split, target, ours, p)))
    && (!Touched(split, target, ours, p) ==> Get(next.wd, p) == Get(ps.wd, p) && p !in next.tmp)
  }

  /**
   * One entry of the first loop, over the split point's mapping: read the
   * split blob, classify the path, and act on codes 1 (take the target's
   * version), 6 (delete and unstage) and 8 (write the current branch's bytes
   * to the conflict directory).
   */
  function SplitStep(st: Objects, cwd: set<Path>, split: map<Path, Digest>, target: map<Path, Digest>,
                     ours: map<Path, Digest>, ps: Pass, p: Path): (r: Result<Pass, Error>)
    requires p in split && ps.staged.Staged?
    ensures r.Ok? ==> r.value.staged.Staged? && r.value.staged.blobs == ps.staged.blobs && r.value.staged.parent == ps.staged.parent
    ensures MergeReady(st, split, target, ours) && (p in cwd ==> p in ps.wd) ==>
              && (r.Err? <==> MergeBlocks(ps.wd, cwd, split, target, ours, p) || Crashes(split, target, ours, p))
              && (r.Err? ==> r.error == if Crashes(split, target, ours, p) then Abort(NullReference) else Thrown(ErrUnstaged))
  {
    match GetBlob(st, split[p])
    case Err(m) => Err(Thrown(m))
    case Ok(splitBlob) =>
      var status := MergeStatus.Status(split[p], Get(target, p), Get(ours, p));
      if status == 1 then
        match GetBlob(st, target[p])
        case Err(m) => Err(Thrown(m))
        case Ok(targetBlob) =>
          match TestUnstaged(ps.wd, cwd, p, Some(splitBlob))
          case Some(e) => Err(e)
          case None => Ok(Pass(WriteBlob(ps.wd, p, targetBlob, false), ps.tmp, AddToStage(ps.staged, targetBlob).1))
      else if status == 6 then
        match TestUnstaged(ps.wd, cwd, p, Some(splitBlob))
        case Some(e) => Err(e)
        case None => Ok(Pass(ps.wd - {p}, ps.tmp, RemoveFromCommit(ps.staged, p).1))
      else if status == 8 then
        if p !in ours then Err(Abort(NullReference))
        else
          match GetBlob(st, ours[p])
          case Err(m) => Err(Thrown(m))
          case Ok(oursBlob) =>
            match TestUnstaged(ps.wd, cwd, p, Some(oursBlob))
            case Some(e) => Err(e)
            case None => Ok(Pass(ps.wd, ps.tmp[p := oursBlob.data], ps.staged))
      else Ok(ps)
  }

  /** One entry of the second loop, over the target's mapping: a path neither the split point nor the current branch has is restored and staged. */
  function TargetStep(st: Objects, cwd: set<Path>, split: map<Path, Digest>, target: map<Path, Digest>,
                      ours: map<Path, Digest>, ps: Pass, p: Path): (r: Result<Pass, Error>)
    requires p in target && ps.staged.Staged?
    ensures p in split || p in ours ==> r == Ok(ps)
    ensures r.Ok? ==> r.value.staged.Staged? && r.value.staged.blobs == ps.staged.blobs && r.value.staged.parent == ps.staged.parent
    ensures MergeReady(st, split, target, ours) && p !in split && (p in cwd ==> p in ps.wd) ==>
              && (r.Err? <==> MergeBlocks(ps.wd, cwd, split, target, ours, p))
              && (r.Err? ==> r.error == Thrown(ErrUnstaged))
  {
    if p in split || p in ours then Ok(ps)
    else
      match GetBlob(st, target[p])
      case Err(m) => Err(Thrown(m))
      case Ok(targetBlob) =>
        match TestUnstaged(ps.wd, cwd, p, Some(targetBlob))
        case Some(e) => Err(e)
        case None => Ok(Pass(WriteBlob(ps.wd, p, targetBlob, false), ps.tmp, AddToStage(ps.staged, targetBlob).1))
  }

  /** Restoring and staging the target's blob at a fresh path settles it when the merged version is the target's and differs from the current branch's. */
  lemma TakeTargetEffect(ps: Pass, tb: Blob, split: map<Path, Digest>, target: map<Path, Digest>, ours: map<Path, Digest>, p: Path)
    requires ps.staged.Staged? && ps.staged.blobs == ours
    requires p !in ps.tmp && p !in ps.staged.added && p !in ps.staged.removed
    requires tb.filename == p && MergedAt(split, target, ours, p) == Some(tb.Id()) && Get(ours, p) != Some(tb.Id())
    ensures StepEffect(ps, Pass(WriteBlob(ps.wd, p, tb, false), ps.tmp, AddToStage(ps.staged, tb).1), split, target, ours, p)
  {
    var next := Pass(WriteBlob(ps.wd, p, tb, false), ps.tmp, AddToStage(ps.staged, tb).1);
    assert next.staged.added == ps.staged.added[p := tb];
    assert Touched(split, target, ours, p);
    forall x | x != p ensures SameAt(ps, next, x) {
    }
  }

  /** A successful first-loop step settles its path and leaves the others alone. */
  lemma SplitStepEffect(st: Objects, cwd: set<Path>, split: map<Path, Digest>, target: map<Path, Digest>,
                        ours: map<Path, Digest>, ps: Pass, p: Path)
    requires p in split && ps.staged.Staged? && ps.staged.blobs == ours
    requires MergeReady(st, split, target, ours) && SplitStep(st, cwd, split, target, ours, ps, p).Ok?
    requires p !in ps.tmp && p !in ps.staged.added && p !in ps.staged.removed
    ensures StepEffect(ps, SplitStep(st, cwd, split, target, ours, ps, p).value, split, target, ours, p)
  {
    var next := SplitStep(st, cwd, split, target, ours, ps, p).value;
    var status := MergeStatus.Status(split[p], Get(target, p), Get(ours, p));
    MergedByStatus(split, target, ours, p);
    if status == 1 {
      TargetBlob(st, target, ours, false, p);
      var tb := st[target[p]].blob;
      assert next == Pass(WriteBlob(ps.wd, p, tb, false), ps.tmp, AddToStage(ps.staged, tb).1);
      TakeTargetEffect(ps, tb, split, target, ours, p);
    } else if status == 6 {
      assert next == Pass(ps.wd - {p}, ps.tmp, RemoveFromCommit(ps.staged, p).1);
    } else if status == 8 {
      var ob := st[ours[p]].blob;
      assert ObjSha(st[ours[p]]) == ours[p];
      assert next == Pass(ps.wd, ps.tmp[p := ob.data], ps.staged);
    } else {
      assert next == ps;
    }
  }

  /** A successful second-loop step on a path outside the split point settles it and leaves the others alone. */
  lemma TargetStepEffect(st: Objects, cwd: set<Path>, split: map<Path, Digest>, target: map<Path, Digest>,
                         ours: map<Path, Digest>, ps: Pass, p: Path)
    requires p in target && p !in split && ps.staged.Staged? && ps.staged.blobs == ours
    requires MergeReady(st, split, target, ours) && TargetStep(st, cwd, split, target, ours, ps, p).Ok?
    requires p !in ps.tmp && p !in ps.staged.added && p !in ps.staged.removed
    ensures StepEffect(ps, TargetStep(st, cwd, split, target, ours, ps, p).value, split, target, ours, p)
  {
    var next := TargetStep(st, cwd, split, target, ours, ps, p).value;
    if p !in ours {
      TargetBlob(st, target, ours, false, p);
      var tb := st[target[p]].blob;
      assert next == Pass(WriteBlob(ps.wd, p, tb, false), ps.tmp, AddToStage(ps.staged, tb).1);
      TakeTargetEffect(ps, tb, split, target, ours, p);
    }
  }

  /** What the first loop keeps: the paths done passed their checks and are settled, the others are fresh. */
  ghost predicate SplitInv(ps: Pass, wd0: Wd, split: map<Path, Digest>, target: map<Path, Digest>, ours: map<Path, Digest>, done: set<Path>)
    requires ps.staged.Staged?
  {
    && (forall p :: p in done ==> !MergeBlocks(wd0, wd0.Keys, split, target, ours, p) && !Crashes(split, target, ours, p))
    && (forall p :: p in done ==> Settled(ps, wd0, split, target, ours, p))
    && (forall p :: p !in done ==> Fresh(ps, wd0, p))
  }

  /** The working directory after the conflict files are moved in, at one path. */
  lemma FinalAt(ps: Pass, x: Path)
    ensures Get(Final(ps), x) == if x in ps.tmp then Some(ps.tmp[x]) else Get(ps.wd, x)
  {
  }

  /** A step that leaves `x` alone keeps `x` fresh and keeps it settled. */
  lemma FrameKeeps(ps: Pass, next: Pass, wd0: Wd, split: map<Path, Digest>, target: map<Path, Digest>,
                   ours: map<Path, Digest>, x: Path)
    requires next.staged.blobs == ps.staged.blobs && SameAt(ps, next, x)
    ensures Fresh(ps, wd0, x) ==> Fresh(next, wd0, x)
    ensures Settled(ps, wd0, split, target, ours, x) ==> Settled(next, wd0, split, target, ours, x)
  {
    if Settled(ps, wd0, split, target, ours, x) {
      var m := MergedAt(split, target, ours, x);
      TreeKept(ps.staged, next.staged, x);
      assert Get(Tree(next.staged), x) == m;
      assert (x in next.staged.added || x in next.staged.removed) <==> (x in ps.staged.added || x in ps.staged.removed);
      if Touched(split, target, ours, x) {
        HoldsKept(ps, next, m, x);
      }
    }
  }

  lemma HoldsKept(ps: Pass, next: Pass, m: Option<Digest>, x: Path)
    requires SameAt(ps, next, x)
    ensures Holds(Final(ps), x, m) ==> Holds(Final(next), x, m)
  {
    FinalAt(ps, x);
    FinalAt(next, x);
  }

  lemma TreeKept(a: StagedRecord, b: StagedRecord, x: Path)
    requires a.blobs == b.blobs && Get(a.added, x) == Get(b.added, x) && (x in a.removed <==> x in b.removed)
    ensures Get(Tree(a), x) == Get(Tree(b), x)
  {
  }

  /** The step settles a fresh path. */
  lemma StepSettles(ps: Pass, next: Pass, wd0: Wd, split: map<Path, Digest>, target: map<Path, Digest>,
                    ours: map<Path, Digest>, p: Path)
    requires Fresh(ps, wd0, p) && StepEffect(ps, next, split, target, ours, p)
    ensures Settled(next, wd0, split, target, ours, p)
  {
  }

  lemma SplitAdvance(ps: Pass, next: Pass, wd0: Wd, split: map<Path, Digest>, target: map<Path, Digest>,
                     ours: map<Path, Digest>, done: set<Path>, p: Path)
    requires next.staged.blobs == ps.staged.blobs
    requires SplitInv(ps, wd0, split, target, ours, done) && p !in done
    requires StepEffect(ps, next, split, target, ours, p)
    requires !MergeBlocks(wd0, wd0.Keys, split, target, ours, p) && !Crashes(split, target, ours, p)
    ensures SplitInv(next, wd0, split, target, ours, done + {p})
  {
    StepSettles(ps, next, wd0, split, target, ours, p);
    forall x | x in done
      ensures Settled(next, wd0, split, target, ours, x)
    {
      FrameKeeps(ps, next, wd0, split, target, ours, x);
    }
    forall x | x !in done + {p}
      ensures Fresh(next, wd0, x)
    {
      FrameKeeps(ps, next, wd0, split, target, ours, x);
    }
  }

  /** One entry of the first loop either stops on a path that blocks or crashes, or extends the loop's invariant by that path. */
  lemma SplitStepOutcome(st: Objects, wd0: Wd, split: map<Path, Digest>, target: map<Path, Digest>, ours: map<Path, Digest>,
                         ps: Pass, done: set<Path>, p: Path)
    requires p in split && p !in done && ps.staged.blobs == ours
    requires MergeReady(st, split, target, ours) && SplitInv(ps, wd0, split, target, ours, done)
    ensures var step := SplitStep(st, wd0.Keys, split, target, ours, ps, p);
            && (step.Err? ==> MergeBlocks(wd0, wd0.Keys, split, target, ours, p) || Crashes(split, target, ours, p))
            && (step.Err? ==> step.error == Thrown(ErrUnstaged) || (step.error == Abort(NullReference) && Crashes(split, target, ours, p)))
            && (step.Ok? ==> SplitInv(step.value, wd0, split, target, ours, done + {p}))
  {
    assert Fresh(ps, wd0, p);
    var step := SplitStep(st, wd0.Keys, split, target, ours, ps, p);
    if step.Ok? {
      SplitStepEffect(st, wd0.Keys, split, target, ours, ps, p);
      SplitAdvance(ps, step.value, wd0, split, target, ours, done, p);
    }
  }

  /** The first loop of the merge, over the split point's mapping in `order`; it stops at the first failing path. */
  method SplitPass(st: Objects, wd0: Wd, split: map<Path, Digest>, target: map<Path, Digest>, ours: map<Path, Digest>,
                   order: seq<Path>, staged0: Commit)
    returns (ps: Pass, err: Option<Error>)
    requires Enumerates(order, split.Keys)
    requires staged0.Staged? && staged0.blobs == ours && staged0.added == map[] && staged0.removed == {}
    ensures ps.staged.Staged? && ps.staged.blobs == ours && ps.staged.parent == staged0.parent
    ensures MergeReady(st, split, target, ours) ==>
              (err.None? <==> forall p :: p in split ==> !MergeBlocks(wd0, wd0.Keys, split, target, ours, p)
                                                         && !Crashes(split, target, ours, p))
    ensures MergeReady(st, split, target, ours) && err.Some? ==>
              err == Some(Thrown(ErrUnstaged)) || (err == Some(Abort(NullReference)) && exists p :: Crashes(split, target, ours, p))
    ensures MergeReady(st, split, target, ours) && err.None? ==> SplitInv(ps, wd0, split, target, ours, split.Keys)
  {
    ps := Pass(wd0, map[], staged0);
    ghost var done: set<Path> := {};
    var i := 0;
    while i < |order|
      invariant 0 <= i <= |order|
      invariant forall k :: 0 <= k < i ==> order[k] in done
      invariant forall k :: i <= k < |order| ==> order[k] !in done
      invariant done <= split.Keys
      invariant ps.staged.Staged? && ps.staged.blobs == ours && ps.staged.parent == staged0.parent
      invariant MergeReady(st, split, target, ours) ==> SplitInv(ps, wd0, split, target, ours, done)
    {
      var p := order[i];
      var step := SplitStep(st, wd0.Keys, split, target, ours, ps, p);
      if MergeReady(st, split, target, ours) {
        SplitStepOutcome(st, wd0, split, target, ours, ps, done, p);
      }
      if step.Err? {
        return ps, Some(step.error);
      }
      ps := step.value;
      done := done + {p};
      i := i + 1;
    }
    assert done == split.Keys;
    return ps, None;
  }

  /** What the second loop keeps: the split point's paths are as the first loop left them, and of the others those done are settled and the rest fresh. */
  ghost predicate TargetInv(ps: Pass, ps0: Pass, wd0: Wd, split: map<Path, Digest>, target: map<Path, Digest>,
                            ours: map<Path, Digest>, done: set<Path>)
    requires ps.staged.Staged?
  {
    && (forall p :: p in split ==> SameAt(ps0, ps, p))
    && (forall p :: p in done && p !in split ==> !MergeBlocks(wd0, wd0.Keys, split, target, ours, p))
    && (forall p :: p in done && p !in split ==> Settled(ps, wd0, split, target, ours, p))
    && (forall p :: p !in done && p !in split ==> Fresh(ps, wd0, p))
  }

  lemma TargetAdvance(ps0: Pass, ps: Pass, next: Pass, wd0: Wd, split: map<Path, Digest>, target: map<Path, Digest>,
                      ours: map<Path, Digest>, done: set<Path>, p: Path)
    requires next.staged.blobs == ps.staged.blobs
    requires TargetInv(ps, ps0, wd0, split, target, ours, done) && p !in done && p !in split
    requires StepEffect(ps, next, split, target, ours, p)
    requires !MergeBlocks(wd0, wd0.Keys, split, target, ours, p)
    ensures TargetInv(next, ps0, wd0, split, target, ours, done + {p})
  {
    StepSettles(ps, next, wd0, split, target, ours, p);
    forall x | x in split
      ensures SameAt(ps0, next, x)
    {
      assert SameAt(ps0, ps, x) && SameAt(ps, next, x);
    }
    forall x | x in done && x !in split
      ensures Settled(next, wd0, split, target, ours, x)
    {
      FrameKeeps(ps, next, wd0, split, target, ours, x);
    }
    forall x | x !in done + {p} && x !in split
      ensures Fresh(next, wd0, x)
    {
      FrameKeeps(ps, next, wd0, split, target, ours, x);
    }
  }

  /** One entry of the second loop either stops on a path that blocks, or extends the loop's invariant by that path. */
  lemma TargetStepOutcome(st: Objects, wd0: Wd, split: map<Path, Digest>, target: map<Path, Digest>, ours: map<Path, Digest>,
                          ps0: Pass, ps: Pass, done: set<Path>, p: Path)
    requires p in target && p !in done && ps.staged.blobs == ours
    requires MergeReady(st, split, target, ours) && TargetInv(ps, ps0, wd0, split, target, ours, done)
    ensures var step := TargetStep(st, wd0.Keys, split, target, ours, ps, p);
            && (step.Err? ==> p !in split && MergeBlocks(wd0, wd0.Keys, split, target, ours, p) && step.error == Thrown(ErrUnstaged))
            && (step.Ok? ==> TargetInv(step.value, ps0, wd0, split, target, ours, done + {p}))
  {
    var step := TargetStep(st, wd0.Keys, split, target, ours, ps, p);
    if p in split {
      assert step == Ok(ps);
    } else {
      assert Fresh(ps, wd0, p);
      if step.Ok? {
        TargetStepEffect(st, wd0.Keys, split, target, ours, ps, p);
        TargetAdvance(ps0, ps, step.value, wd0, split, target, ours, done, p);
      }
    }
  }

  /** The second loop, over the target's mapping in `order`: each path neither the split point nor the current branch has is restored and staged. */
  method TargetPass(st: Objects, wd0: Wd, split: map<Path, Digest>, target: map<Path, Digest>, ours: map<Path, Digest>,
                    order: seq<Path>, ps0: Pass)
    returns (ps: Pass, err: Option<Error>)
    requires Enumerates(order, target.Keys)
    requires ps0.staged.Staged?
    ensures ps.staged.Staged? && ps.staged.blobs == ps0.staged.blobs && ps.staged.parent == ps0.staged.parent
    ensures MergeReady(st, split, target, ours) && ps0.staged.blobs == ours
            && (forall p :: p !in split ==> Fresh(ps0, wd0, p)) ==>
              && (err.None? <==> forall p :: p in target && p !in split ==> !MergeBlocks(wd0, wd0.Keys, split, target, ours, p))
              && (err.Some? ==> err == Some(Thrown(ErrUnstaged)))
              && (err.None? ==> TargetInv(ps, ps0, wd0, split, target, ours, target.Keys))
  {
    ps := ps0;
    ghost var done: set<Path> := {};
    ghost var pre := MergeReady(st, split, target, ours) && ps0.staged.blobs == ours
                     && (forall p :: p !in split ==> Fresh(ps0, wd0, p));
    var i := 0;
    while i < |order|
      invariant 0 <= i <= |order|
      invariant forall k :: 0 <= k < i ==> order[k] in done
      invariant forall k :: i <= k < |order| ==> order[k] !in done
      invariant done <= target.Keys
      invariant ps.staged.Staged? && ps.staged.blobs == ps0.staged.blobs && ps.staged.parent == ps0.staged.parent
      invariant pre ==> TargetInv(ps, ps0, wd0, split, target, ours, done)
    {
      var p := order[i];
      var step := TargetStep(st, wd0.Keys, split, target, ours, ps, p);
      if pre {
        TargetStepOutcome(st, wd0, split, target, ours, ps0, ps, done, p);
      }
      if step.Err? {
        return ps, Some(step.error);
      }
      ps := step.value;
      done := done + {p};
      i := i + 1;
    }
    assert done == target.Keys;
    return ps, None;
  }

  /** After both loops every path is settled: the split point's from the first loop, the target's new paths from the second, and the rest were never touched. */
  lemma AllSettled(ps1: Pass, ps2: Pass, wd0: Wd, split: map<Path, Digest>, target: map<Path, Digest>, ours: map<Path, Digest>)
    requires ps1.staged.blobs == ours && ps2.staged.blobs == ours
    requires SplitInv(ps1, wd0, split, target, ours, split.Keys)
    requires TargetInv(ps2, ps1, wd0, split, target, ours, target.Keys)
    ensures forall p :: Settled(ps2, wd0, split, target, ours, p)
  {
    forall p
      ensures Settled(ps2, wd0, split, target, ours, p)
    {
      if p in split {
        FrameKeeps(ps1, ps2, wd0, split, target, ours, p);
      } else if p !in target {
        assert Fresh(ps2, wd0, p);
      }
    }
  }

  /** Two maps that agree at every key are equal. */
  lemma SameMapping(a: map<Path, Digest>, b: map<Path, Digest>)
    requires forall p :: Get(a, p) == Get(b, p)
    ensures a == b
  {
    assert a.Keys == b.Keys by {
      forall p ensures p in a <==> p in b {
        assert Get(a, p).Some? == Get(b, p).Some?;
      }
    }
    forall p | p in a ensures a[p] == b[p] {
      assert Get(a, p) == Get(b, p);
    }
  }

  /**
   * Once every path is settled the stage finishes into the merged mapping,
   * holds changes exactly when that mapping differs from the current
   * branch's, and the working directory holds the merged version of every
   * path the merge touches and is unchanged elsewhere.
   */
  lemma SettledOutcome(ps: Pass, wd0: Wd, split: map<Path, Digest>, target: map<Path, Digest>, ours: map<Path, Digest>)
    requires ps.staged.blobs == ours
    requires forall p :: Settled(ps, wd0, split, target, ours, p)
    ensures Tree(ps.staged) == MergedTree(split, target, ours)
    ensures HasStagedChanges(ps.staged) <==> MergedTree(split, target, ours) != ours
    ensures forall p :: Touched(split, target, ours, p) ==> Holds(Final(ps), p, MergedAt(split, target, ours, p))
    ensures forall p :: !Touched(split, target, ours, p) ==> Get(Final(ps), p) == Get(wd0, p)
  {
    var m := MergedTree(split, target, ours);
    forall p ensures Get(Tree(ps.staged), p) == Get(m, p) {
      assert Settled(ps, wd0, split, target, ours, p);
    }
    SameMapping(Tree(ps.staged), m);
    if HasStagedChanges(ps.staged) {
      var p :| p in ps.staged.added || p in ps.staged.removed;
      assert Settled(ps, wd0, split, target, ours, p);
      assert Get(m, p) != Get(ours, p);
    } else {
      forall p ensures Get(m, p) == Get(ours, p) {
        assert Settled(ps, wd0, split, target, ours, p);
        assert !(p in ps.staged.added || p in ps.staged.removed);
      }
      SameMapping(m, ours);
    }
    forall p | Touched(split, target, ours, p)
      ensures Holds(Final(ps), p, MergedAt(split, target, ours, p))
    {
      assert Settled(ps, wd0, split, target, ours, p);
    }
    forall p | !Touched(split, target, ours, p)
      ensures Get(Final(ps), p) == Get(wd0, p)
    {
      assert Settled(ps, wd0, split, target, ours, p);
      FinalAt(ps, p);
    }
  }

  /** The two loops pass exactly when no path blocks or crashes. */
  lemma ClearByPasses(wd0: Wd, split: map<Path, Digest>, target: map<Path, Digest>, ours: map<Path, Digest>)
    ensures MergeClear(wd0, split, target, ours) <==>
              && (forall p :: p in split ==> !MergeBlocks(wd0, wd0.Keys, split, target, ours, p) && !Crashes(split, target, ours, p))
              && (forall p :: p in target && p !in split ==> !MergeBlocks(wd0, wd0.Keys, split, target, ours, p))
  {
  }

  /** The merge commit the three-way merge records. */
  function MergeCommit(split: map<Path, Digest>, head: Commit, other: Commit, current: string, target: string, now: int): (c: Commit)
    ensures c.Finished? && c.parent == Some(head.Sha()) && c.mergeParent == Some(other.Sha())
  {
    Finished(MergedTree(split, other.blobs, head.blobs), Some(head.Sha()), Some(other.Sha()), current,
             MergeMessage(target, current), now)
  }

  /** Some iteration order of a set: the source iterates a hash map, whose order it does not fix. */
  method SomeOrder(keys: set<Path>) returns (order: seq<Path>)
    ensures Enumerates(order, keys)
  {
    order := [];
    var rest := keys;
    while rest != {}
      invariant rest <= keys
      invariant forall i :: 0 <= i < |order| ==> order[i] in keys && order[i] !in rest
      invariant forall k :: k in keys ==> k in rest || k in order
      invariant forall i, j :: 0 <= i < j < |order| ==> order[i] != order[j]
      decreases rest
    {
      var k :| k in rest;
      order := order + [k];
      rest := rest - {k};
    }
  }

  /** What a successful run of both loops leaves behind: the merged stage and the merged working directory. */
  ghost predicate MergedPass(ps: Pass, wd0: Wd, split: map<Path, Digest>, target: map<Path, Digest>, ours: map<Path, Digest>) {
    && Tree(ps.staged) == MergedTree(split, target, ours)
    && (HasStagedChanges(ps.staged) <==> MergedTree(split, target, ours) != ours)
    && (forall p :: Touched(split, target, ours, p) ==> Holds(Final(ps), p, MergedAt(split, target, ours, p)))
    && (forall p :: !Touched(split, target, ours, p) ==> Get(Final(ps), p) == Get(wd0, p))
  }

  /** Both loops of `merge`, the second run only when the first passes. */
  method BothPasses(st: Objects, wd0: Wd, split: map<Path, Digest>, target: map<Path, Digest>, ours: map<Path, Digest>,
                    splitOrder: seq<Path>, targetOrder: seq<Path>, staged0: Commit)
    returns (ps: Pass, err: Option<Error>)
    requires Enumerates(splitOrder, split.Keys) && Enumerates(targetOrder, target.Keys)
    requires staged0.Staged? && staged0.blobs == ours && staged0.added == map[] && staged0.removed == {}
    ensures ps.staged.blobs == ours && ps.staged.parent == staged0.parent
    ensures MergeReady(st, split, target, ours) ==>
              && (err.None? <==> MergeClear(wd0, split, target, ours))
              && (err.Some? ==> err == Some(Thrown(ErrUnstaged)) || err == Some(Abort(NullReference)))
              && (err.Some? && (forall p :: !Crashes(split, target, ours, p)) ==> err == Some(Thrown(ErrUnstaged)))
              && (err.None? ==> MergedPass(ps, wd0, split, target, ours))
  {
    var ps1, err1 := SplitPass(st, wd0, split, target, ours, splitOrder, staged0);
    ps, err := ps1, err1;
    if err1.None? {
      ps, err := TargetPass(st, wd0, split, target, ours, targetOrder, ps1);
    }
    if MergeReady(st, split, target, ours) {
      ClearByPasses(wd0, split, target, ours);
      if err.None? {
        AllSettled(ps1, ps, wd0, split, target, ours);
        SettledOutcome(ps, wd0, split, target, ours);
      }
    }
  }

  /**
   * The end of a three-way merge both loops passed: the conflict files are
   * moved in, and the stage becomes the merge commit unless it holds no change.
   */
  method Conclude(r: Repo, head: Commit, other: Commit, split: map<Path, Digest>, target: string, now: int, ps: Pass)
    returns (s: Step)
    requires ps.staged.blobs == head.blobs && ps.staged.parent == Some(head.Sha())
    ensures s.repo.head == r.head && s.repo.stage.None?
    ensures MergedPass(ps, r.wd, split, other.blobs, head.blobs) ==>
              var T, H := other.blobs, head.blobs;
              && (forall p :: Touched(split, T, H, p) ==> Holds(s.repo.wd, p, MergedAt(split, T, H, p)))
              && (forall p :: !Touched(split, T, H, p) ==> Get(s.repo.wd, p) == Get(r.wd, p))
              && (MergedTree(split, T, H) == H ==>
                    s.err == Some(Thrown(NoChanges)) && s.repo.refs == r.refs && s.repo.store == r.store)
              && (MergedTree(split, T, H) != H ==>
                    var c := MergeCommit(split, head, other, CurrentBranch(r), target, now);
                    && (s.err.None? <==> c.Sha() !in r.store)
                    && s.repo.refs == r.refs[CurrentBranch(r) := c.Sha()]
                    && (s.err.None? ==> GetCommit(s.repo.store, c.Sha()) == Ok(c)))
  {
    var current := CurrentBranch(r);
    var merged := r.(wd := Final(ps), stage := None);
    ghost var T, H := other.blobs, head.blobs;
    if !HasStagedChanges(ps.staged) {
      s := Step(merged, Some(Thrown(NoChanges)));
      return;
    }
    var order := SomeOrder(ps.staged.added.Keys);
    var c := Finish(ps.staged, current, MergeMessage(target, current), now, Some(other.Sha()));
    s := StoreCommit(merged, AddedInOrder(ps.staged, order), c);
    if MergedPass(ps, r.wd, split, T, H) {
      MergeCommitIsFinish(ps, head, other, split, current, target, now);
    }
  }

  /** The commit `commitMerge` finishes from the merged stage is the merge commit. */
  lemma MergeCommitIsFinish(ps: Pass, head: Commit, other: Commit, split: map<Path, Digest>, current: string, target: string, now: int)
    requires ps.staged.parent == Some(head.Sha())
    requires Tree(ps.staged) == MergedTree(split, other.blobs, head.blobs)
    ensures Finish(ps.staged, current, MergeMessage(target, current), now, Some(other.Sha()))
            == MergeCommit(split, head, other, current, target, now)
  {
  }

  /**
   * What the three-way part of `merge` promises once every blob it reads is
   * stored under the path it is read for: a refused path rolls the working
   * directory back (or, for the crash, ends the process), and otherwise the
   * working directory holds the merged files and the merge commit is
   * recorded unless it would change nothing.
   */
  ghost predicate ThreeWayOutcome(r: Repo, s: Step, head: Commit, other: Commit, split: map<Path, Digest>, target: string, now: int) {
    var T, H := other.blobs, head.blobs;
    && (!MergeClear(r.wd, split, T, H) ==> s.err == Some(Thrown(ErrUnstaged)) || s.err == Some(Abort(NullReference)))
    && (!MergeClear(r.wd, split, T, H) && (forall p :: !Crashes(split, T, H, p)) ==>
          && s.err == Some(Thrown(ErrUnstaged))
          && s.repo.refs == r.refs[CurrentBranch(r) := head.Sha()]
          && (forall p :: p in r.wd ==> p in s.repo.wd && s.repo.wd[p] == r.wd[p]))
    && (MergeClear(r.wd, split, T, H) ==>
          && (forall p :: Touched(split, T, H, p) ==> Holds(s.repo.wd, p, MergedAt(split, T, H, p)))
          && (forall p :: !Touched(split, T, H, p) ==> Get(s.repo.wd, p) == Get(r.wd, p)))
    && (MergeClear(r.wd, split, T, H) && MergedTree(split, T, H) == H ==>
          s.err == Some(Thrown(NoChanges)) && s.repo.refs == r.refs && s.repo.store == r.store)
    && (MergeClear(r.wd, split, T, H) && MergedTree(split, T, H) != H ==>
          var c := MergeCommit(split, head, other, CurrentBranch(r), target, now);
          && (s.err.None? <==> c.Sha() !in r.store)
          && s.repo.refs == r.refs[CurrentBranch(r) := c.Sha()]
          && (s.err.None? ==> GetCommit(s.repo.store, c.Sha()) == Ok(c)))
  }

  /**
   * The three-way part of `merge`, from `clearStageFile` on: both loops over
   * a fresh stage on the head commit, the rollback when a path is refused,
   * the conflict files moved in, and `commitMerge`.
   */
  method ThreeWay(r: Repo, head: Commit, other: Commit, split: Commit, target: string, now: int,
                  splitOrder: seq<Path>, targetOrder: seq<Path>)
    returns (s: Step)
    requires Enumerates(splitOrder, split.blobs.Keys) && Enumerates(targetOrder, other.blobs.Keys)
    ensures s.repo.head == r.head && s.repo.stage.None?
    ensures MergeReady(r.store, split.blobs, other.blobs, head.blobs) ==>
              ThreeWayOutcome(r, s, head, other, split.blobs, target, now)
  {
    var cleared := r.(stage := None);
    var ps, err := BothPasses(r.store, r.wd, split.blobs, other.blobs, head.blobs, splitOrder, targetOrder, CreateStaged(head));
    if err.Some? {
      if err.value.Thrown? {
        // restoreRefHead, then restoreWorkspace, which deletes the stage file again
        return Step(cleared.(refs := r.refs[CurrentBranch(r) := head.Sha()], wd := RestoreWorkspace(ps.wd, r.wd)), err);
      }
      return Step(cleared.(wd := ps.wd), err);
    }
    s := Conclude(r, head, other, split.blobs, target, now, ps);
  }

  /** The parent links of every stored commit: the graph `getAllAncestors` and `getCommonAncestor` walk. */
  function Links(st: Objects): (g: Graph.Links)
    ensures forall d :: d in g <==> d in st && st[d].CommitObj?
  {
    map d | d in st && st[d].CommitObj? ::
      var c := st[d].commit;
      Graph.Edge(c.parent, if c.Finished? then c.mergeParent else None)
  }

  /** In a consistent repository every parent link of the walk graph leads to a stored commit, so the walks never meet a missing one. */
  lemma ValidLinksResolve(r: Repo)
    requires Valid(r)
    ensures forall d :: d in Links(r.store) ==>
              && (Links(r.store)[d].parent.Some? ==> Links(r.store)[d].parent.value in Links(r.store))
              && (Links(r.store)[d].mergeParent.Some? ==> Links(r.store)[d].mergeParent.value in Links(r.store))
  {
    var g := Links(r.store);
    forall d | d in g
      ensures && (g[d].parent.Some? ==> g[d].parent.value in g)
              && (g[d].mergeParent.Some? ==> g[d].mergeParent.value in g)
    {
      assert CommitClosed(r.store, r.store[d].commit);
    }
  }

  /** A failed walk. The walk's own assertion ends the process; a parent digest with no stored commit is a failure of
      the model's digest-keyed graph (the source follows the parent objects inside each commit) and is raised as an exception. */
  function WalkError(msg: string): (e: Error)
    ensures e.msg == msg && (e.Abort? <==> msg == Graph.AssertionFailed)
  {
    if msg == Graph.AssertionFailed then Abort(msg) else Thrown(msg)
  }

  /**
   * The fast-forward of `merge` as written: the working directory is
   * reconciled from the head commit to the target's head, an error leaves
   * it as the reconciler left it, and on success the current branch's ref
   * moves to the target. The stage file is left as it was.
   */
  method FastForward(r: Repo, head: Commit, other: Commit) returns (s: Step)
    ensures s.repo.store == r.store && s.repo.head == r.head && s.repo.logs == r.logs && s.repo.stage == r.stage
    ensures s.err.Some? ==> s.repo.refs == r.refs
    ensures s.err.None? ==> s.repo.refs == r.refs[CurrentBranch(r) := other.Sha()]
    ensures Ready(r.store, other.blobs, head.blobs, false) ==>
              && (s.err.None? <==> Clear(r.wd, other.blobs, head.blobs))
              && (s.err.None? ==> Reconciled(r.wd, s.repo.wd, other.blobs, head.blobs))
              && (s.err.Some? ==> s.err == Some(Thrown(ErrUnstaged)) && s.repo.wd.Keys <= r.wd.Keys)
  {
    var files := SomeOrder(r.wd.Keys);
    var order := SomeOrder(other.blobs.Keys);
    // `restoreToCommit` raises past the command: nothing is rolled back
    var wd, err := RestoreAllFiles(r.store, r.wd, other.blobs, head.blobs, files, order, false);
    if err.Some? {
      return Step(r.(wd := wd), err);
    }
    return Step(r.(wd := wd, refs := r.refs[CurrentBranch(r) := other.Sha()]), None);
  }

  /**
   * The fast-forward with the stage file deleted once the ref has moved, as
   * `reset` and the three-way merge do: the next staging record then starts
   * on the new head commit.
   */
  method FastForwardCorrected(r: Repo, head: Commit, other: Commit) returns (s: Step)
    ensures s.repo.store == r.store && s.repo.head == r.head && s.repo.logs == r.logs
    ensures s.err.Some? ==> s.repo.refs == r.refs && s.repo.stage == r.stage
    ensures s.err.None? ==> s.repo.refs == r.refs[CurrentBranch(r) := other.Sha()] && s.repo.stage.None?
    ensures Ready(r.store, other.blobs, head.blobs, false) ==>
              && (s.err.None? <==> Clear(r.wd, other.blobs, head.blobs))
              && (s.err.None? ==> Reconciled(r.wd, s.repo.wd, other.blobs, head.blobs))
              && (s.err.Some? ==> s.err == Some(Thrown(ErrUnstaged)) && s.repo.wd.Keys <= r.wd.Keys)
    ensures Valid(r) && GetCommit(r.store, other.Sha()) == Ok(other) && s.err.None? ==>
              && Valid(s.repo)
              && HeadCommit(s.repo) == Ok(other)
              && StagedCommit(s.repo) == Ok(CreateStaged(other))
  {
    var files := SomeOrder(r.wd.Keys);
    var order := SomeOrder(other.blobs.Keys);
    var wd, err := RestoreAllFiles(r.store, r.wd, other.blobs, head.blobs, files, order, false);
    if err.Some? {
      return Step(r.(wd := wd), err);
    }
    s := Step(r.(wd := wd, refs := r.refs[CurrentBranch(r) := other.Sha()], stage := None), None);
    if Valid(r) && GetCommit(r.store, other.Sha()) == Ok(other) {
      MovedHeadValid(r, other, wd);
    }
  }

  /** Moving a valid repository's current branch to a stored commit, with no stage file, keeps it valid and reads that commit back. */
  lemma MovedHeadValid(r: Repo, other: Commit, wd: Wd)
    requires Valid(r) && GetCommit(r.store, other.Sha()) == Ok(other)
    ensures var moved := r.(wd := wd, refs := r.refs[CurrentBranch(r) := other.Sha()], stage := None);
            && Valid(moved)
            && HeadCommit(moved) == Ok(other)
            && StagedCommit(moved) == Ok(CreateStaged(other))
  {
    ValidReads(r);
    var moved := r.(wd := wd, refs := r.refs[r.head := other.Sha()], stage := None);
    assert PlainRefOk(moved, moved.head);
  }

  /**
   * Both heads are readable, the target's history is well linked, and the
   * current head is not among the target's ancestors but its first parent is.
   */
  ghost predicate ParentIsSplit(r: Repo, target: string) {
    && PlainRefOk(r, r.head) && PlainRefOk(r, target)
    && var g, h, t := Links(r.store), r.refs[r.head], r.refs[target];
       && Graph.HasHistory(g, t) && !Graph.IsAncestor(g, h, t)
       && r.store[h].commit.parent.Some? && Graph.IsAncestor(g, r.store[h].commit.parent.value, t)
  }

  /**
   * `merge`: merges the head of branch `target` into the current branch.
   * Besides the step it returns the split point the ancestor walk chose.
   */
  method Merge(r: Repo, target: string, now: int) returns (s: Step, split: Option<Digest>)
    ensures StagedCommit(r).Err? ==> s == Step(r, Some(StagedCommit(r).error))
    ensures StagedCommit(r).Ok? && HasStagedChanges(StagedCommit(r).value) ==> s == Step(r, Some(Thrown(Uncommitted)))
    ensures StagedCommit(r).Ok? && !HasStagedChanges(StagedCommit(r).value) && target == CurrentBranch(r) ==>
              s == Step(r, Some(Thrown(MergeItself)))
    ensures StagedCommit(r).Ok? && !HasStagedChanges(StagedCommit(r).value) && target != CurrentBranch(r)
            && !RefExists(r, target) ==>
              s == Step(r, Some(Thrown(BranchMissing)))
    ensures s.repo.head == r.head
    ensures split.None? ==> s.err.Some? && s.repo == r
    ensures split.Some? ==>
              && PlainRefOk(r, r.head) && PlainRefOk(r, target)
              && split.value in r.store && r.store[split.value].CommitObj?
              && Graph.IsAncestor(Links(r.store), split.value, r.refs[r.head])
              && Graph.IsAncestor(Links(r.store), split.value, r.refs[target])
    ensures split.Some? ==>
              forall x, k: nat :: Graph.IsAncestor(Links(r.store), x, r.refs[target]) && Graph.Within(Links(r.store), x, r.refs[r.head], k)
                                  ==> Graph.Within(Links(r.store), split.value, r.refs[r.head], k)
    ensures StagedCommit(r).Ok? && !HasStagedChanges(StagedCommit(r).value) && target != CurrentBranch(r)
            && PlainRefOk(r, r.head) && PlainRefOk(r, target)
            && Graph.HasHistory(Links(r.store), r.refs[target])
            && Graph.IsAncestor(Links(r.store), r.refs[r.head], r.refs[target]) ==>
              split == Some(r.refs[r.head])
    ensures StagedCommit(r).Ok? && !HasStagedChanges(StagedCommit(r).value) && target != CurrentBranch(r)
            && ParentIsSplit(r, target) ==>
              split == r.store[r.refs[r.head]].commit.parent
    ensures split.Some? && Valid(r) && split.value == r.refs[target] ==> s == Step(r, Some(Thrown(GivenIsAncestor)))
    ensures split.Some? && Valid(r) && split.value != r.refs[target] && split.value == r.refs[r.head] ==>
              var T, H := r.store[r.refs[target]].commit.blobs, r.store[r.refs[r.head]].commit.blobs;
              && s.repo.store == r.store && s.repo.stage == r.stage
              && (Ready(r.store, T, H, false) ==>
                    && (s.err.None? <==> Clear(r.wd, T, H))
                    && (s.err.None? ==> s.repo.refs == r.refs[r.head := r.refs[target]] && Reconciled(r.wd, s.repo.wd, T, H))
                    && (s.err.Some? ==> s.err == Some(Thrown(ErrUnstaged)) && s.repo.refs == r.refs && s.repo.wd.Keys <= r.wd.Keys))
    ensures split.Some? && Valid(r) && split.value != r.refs[target] && split.value != r.refs[r.head] ==>
              var S := r.store[split.value].commit.blobs;
              var head, other := r.store[r.refs[r.head]].commit, r.store[r.refs[target]].commit;
              MergeReady(r.store, S, other.blobs, head.blobs) ==> ThreeWayOutcome(r, s, head, other, S, target, now)
  {
    split := None;
    var staged := StagedCommit(r);
    if staged.Err? {
      return Step(r, Some(staged.error)), split;
    }
    if HasStagedChanges(staged.value) {
      return Step(r, Some(Thrown(Uncommitted))), split;
    }
    var current := CurrentBranch(r);
    if current == target {
      return Step(r, Some(Thrown(MergeItself))), split;
    }
    if !RefExists(r, target) {
      return Step(r, Some(Thrown(BranchMissing))), split;
    }
    var head := HeadCommit(r);
    if head.Err? {
      return Step(r, Some(head.error)), split;
    }
    var other := BranchHead(r, target);
    if other.Err? {
      return Step(r, Some(other.error)), split;
    }
    var g := Links(r.store);
    var common := Graph.CommonAncestorOf(g, r.refs[r.head], r.refs[target]);
    if common.Err? {
      return Step(r, Some(WalkError(common.error))), split;
    }
    split := Some(common.value);
    s := FromSplit(r, head.value, other.value, common.value, target, now);
  }

  /** The rest of `merge` once the split point is known: the given branch is an ancestor, a fast-forward, or a three-way merge. */
  method FromSplit(r: Repo, head: Commit, other: Commit, split: Digest, target: string, now: int) returns (s: Step)
    requires PlainRefOk(r, r.head) && PlainRefOk(r, target)
    requires head == r.store[r.refs[r.head]].commit && other == r.store[r.refs[target]].commit
    requires split in r.store && r.store[split].CommitObj?
    ensures s.repo.head == r.head
    ensures Valid(r) && split == r.refs[target] ==> s == Step(r, Some(Thrown(GivenIsAncestor)))
    ensures Valid(r) && split != r.refs[target] && split == r.refs[r.head] ==>
              var T, H := other.blobs, head.blobs;
              && s.repo.store == r.store && s.repo.stage == r.stage
              && (Ready(r.store, T, H, false) ==>
                    && (s.err.None? <==> Clear(r.wd, T, H))
                    && (s.err.None? ==> s.repo.refs == r.refs[r.head := r.refs[target]] && Reconciled(r.wd, s.repo.wd, T, H))
                    && (s.err.Some? ==> s.err == Some(Thrown(ErrUnstaged)) && s.repo.refs == r.refs && s.repo.wd.Keys <= r.wd.Keys))
    ensures Valid(r) && split != r.refs[target] && split != r.refs[r.head] ==>
              var S := r.store[split].commit.blobs;
              MergeReady(r.store, S, other.blobs, head.blobs) ==> ThreeWayOutcome(r, s, head, other, S, target, now)
  {
    var splitCommit := r.store[split].commit;
    if splitCommit.Sha() == other.Sha() {
      return Step(r, Some(Thrown(GivenIsAncestor)));
    }
    if splitCommit.Sha() == head.Sha() {
      s := FastForward(r, head, other);
      return s;
    }
    var splitOrder := SomeOrder(splitCommit.blobs.Keys);
    var targetOrder := SomeOrder(other.blobs.Keys);
    s := ThreeWay(r, head, other, splitCommit, target, now, splitOrder, targetOrder);
  }

  /**
   * A repository whose stage file holds no change (a file was staged and
   * then staged back to the committed bytes), on `master` at commit "one";
   * branch `dev` is one commit ahead and adds `g`.
   */
  function FastForwardExample(): Repo {
    var f := Blob("f", [1]);
    var g := Blob("g", [2]);
    var first := Finished(map["f" := f.Id()], None, None, DefaultBranch, "one", 1);
    var second := Finished(map["f" := f.Id(), "g" := g.Id()], Some(first.Sha()), None, "dev", "two", 2);
    Repo(map[f.Id() := BlobObj(f), g.Id() := BlobObj(g), first.Sha() := CommitObj(first), second.Sha() := CommitObj(second)],
         map[DefaultBranch := first.Sha(), "dev" := second.Sha()], DefaultBranch,
         Some(Staged(first.blobs, map[], {}, Some(first.Sha()))), map["f" := [1]], map[], None)
  }

  /**
   * Merging `dev` into the example passes every guard, finds the head
   * commit as the split point, and fast-forwards without a blocking file;
   * the stage file it leaves still names the old head as its parent, so
   * the next commit would not descend from the new head.
   */
  lemma FastForwardStrandsStage()
    ensures var r := FastForwardExample();
            var g := Links(r.store);
            var head, tip := r.refs[r.head], r.refs["dev"];
            && Valid(r) && StagedCommit(r).Ok? && !HasStagedChanges(StagedCommit(r).value)
            && "dev" != CurrentBranch(r) && PlainRefOk(r, r.head) && PlainRefOk(r, "dev")
            && Graph.HasHistory(g, tip) && Graph.IsAncestor(g, head, tip) && head != tip
            && Ready(r.store, r.store[tip].commit.blobs, r.store[head].commit.blobs, false)
            && Clear(r.wd, r.store[tip].commit.blobs, r.store[head].commit.blobs)
            && r.stage.Some? && r.stage.value.parent == Some(head)
  {
    ExampleValid();
    ExampleHistory();
    ExampleClear();
    ExampleStage();
  }

  /** The example's stage holds no change and names the current head as its parent. */
  lemma ExampleStage()
    ensures var r := FastForwardExample();
            && r.head in r.refs && StagedCommit(r).Ok? && !HasStagedChanges(StagedCommit(r).value)
            && r.stage.Some? && r.stage.value.parent == Some(r.refs[r.head])
            && "dev" != CurrentBranch(r) && r.refs[r.head] != r.refs["dev"]
  {
    var r := FastForwardExample();
    assert !HasStagedChanges(StagedCommit(r).value);
  }

  /** Fast-forwarding the example finds every target blob stored under its own path and nothing in the way. */
  lemma ExampleClear()
    ensures var r := FastForwardExample();
            var head, tip := r.refs[r.head], r.refs["dev"];
            && PlainRefOk(r, r.head) && PlainRefOk(r, "dev")
            && Ready(r.store, r.store[tip].commit.blobs, r.store[head].commit.blobs, false)
            && Clear(r.wd, r.store[tip].commit.blobs, r.store[head].commit.blobs)
  {
    var r := FastForwardExample();
    var f := Blob("f", [1]);
    var gb := Blob("g", [2]);
    var first := Finished(map["f" := f.Id()], None, None, DefaultBranch, "one", 1);
    var second := Finished(map["f" := f.Id(), "g" := gb.Id()], Some(first.Sha()), None, "dev", "two", 2);
    ExampleValid();
    assert r.refs[r.head] == first.Sha() && r.refs["dev"] == second.Sha();
    assert r.store[second.Sha()].commit == second && r.store[first.Sha()].commit == first;
    assert !Blocks(r.wd, second.blobs, first.blobs, "f");
    assert r.wd.Keys == {"f"};
  }

  /** The example repository is consistent. */
  lemma ExampleValid()
    ensures Valid(FastForwardExample())
  {
    var r := FastForwardExample();
    var f := Blob("f", [1]);
    var gb := Blob("g", [2]);
    var first := Finished(map["f" := f.Id()], None, None, DefaultBranch, "one", 1);
    var second := Finished(map["f" := f.Id(), "g" := gb.Id()], Some(first.Sha()), None, "dev", "two", 2);
    assert r.store.Keys == {f.Id(), gb.Id(), first.Sha(), second.Sha()};
    assert KeyedByDigest(r.store);
    assert CommitClosed(r.store, first) && CommitClosed(r.store, second);
  }

  /** In the example, `dev` has a well-linked history that contains the current head commit. */
  lemma ExampleHistory()
    ensures var r := FastForwardExample();
            var g := Links(r.store);
            Graph.HasHistory(g, r.refs["dev"]) && Graph.IsAncestor(g, r.refs[r.head], r.refs["dev"])
  {
    var r := FastForwardExample();
    var f := Blob("f", [1]);
    var gb := Blob("g", [2]);
    var first := Finished(map["f" := f.Id()], None, None, DefaultBranch, "one", 1);
    var second := Finished(map["f" := f.Id(), "g" := gb.Id()], Some(first.Sha()), None, "dev", "two", 2);
    var g := Links(r.store);
    assert r.store.Keys == {f.Id(), gb.Id(), first.Sha(), second.Sha()};
    assert g.Keys == {first.Sha(), second.Sha()};
    assert g[second.Sha()] == Graph.Edge(Some(first.Sha()), None);
    assert g[first.Sha()] == Graph.Edge(None, None);
    assert Graph.Closed(g, {first.Sha(), second.Sha()});
    forall S | Graph.Closed(g, S) && second.Sha() in S
      ensures first.Sha() in S
    {
      assert g[second.Sha()].parent.value in S;
    }
  }
}
