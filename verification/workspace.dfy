/**
 * The working directory and the reconciler that makes it match a commit:
 * `restoreBlobContent`, `testUnstaged`, the snapshot taken before a risky
 * command and its restoration, and `restoreAllFiles`.
 */
module Workspace {
  import opened Wrappers
  import opened Digests
  import opened Blobs
  import opened Store

  const ErrUnstaged: string := "There is an untracked file in the way; delete it, or add and commit it first."

  /** How a command ends abnormally. */
  datatype Error =
    /** A `GitletException`: a caller may catch it; at the top it is printed. */
    | Thrown(msg: string)
    /** The process ends (`handleGitletException`, `handleJavaException`, an uncaught runtime exception); nothing is rolled back. */
    | Abort(msg: string)

  /** The working directory: plain file name to bytes. */
  type Wd = map<Path, Bytes>

  /** The digest a blob read from a file with these bytes would carry. */
  function ContentId(data: Bytes): Digest {
    Blob("", data).Id()
  }

  /**
   * `restoreBlobContent(Blob)`: writes the blob's bytes to the file the blob
   * was read from. With `atPath`, the corrected write: to the path `p` being
   * restored, whatever file the stored blob came from.
   */
  function WriteBlob(wd: Wd, p: Path, b: Blob, atPath: bool): (r: Wd)
    ensures var q := if atPath then p else b.filename;
            && r.Keys == wd.Keys + {q} && r[q] == b.data
            && forall x :: x in wd && x != q ==> r[x] == wd[x]
  {
    if atPath then wd[p := b.data] else wd[b.filename := b.data]
  }

  /** `restoreBlobContent(String)`: reads the blob from the store first. */
  function RestoreDigest(st: Objects, wd: Wd, p: Path, d: Digest, atPath: bool): (r: Result<Wd, Error>)
    ensures r.Err? <==> GetBlob(st, d).Err?
    ensures r.Err? ==> r.error == Thrown(MissingBlob)
    ensures r.Ok? ==> r.value == WriteBlob(wd, p, GetBlob(st, d).value, atPath)
  {
    match GetBlob(st, d)
    case Err(_) => Err(Thrown(MissingBlob))
    case Ok(b) => Ok(WriteBlob(wd, p, b, atPath))
  }

  /**
   * Two files with equal bytes share one stored blob, which remembers only
   * the first file name. Restoring the second path as written creates it
   * empty and then writes the bytes to the first file; the corrected write
   * fills the second path.
   */
  lemma SharedContentLandsElsewhere()
    ensures var st := map[Blob("a", [1]).Id() := BlobObj(Blob("a", [1]))];
            RestoreDigest(st, map["b" := []], "b", Blob("b", [1]).Id(), false) == Ok(map["b" := [], "a" := [1]])
    ensures var st := map[Blob("a", [1]).Id() := BlobObj(Blob("a", [1]))];
            RestoreDigest(st, map["b" := []], "b", Blob("b", [1]).Id(), true) == Ok(map["b" := [1]])
  {
    var one: Bytes := [1];
    var st := map[Blob("a", one).Id() := BlobObj(Blob("a", one))];
    var d := Blob("b", one).Id();
    assert d == Blob("a", one).Id();
    assert GetBlob(st, d) == Ok(Blob("a", one));
    var empty: Bytes := [];
    assert map["b" := empty]["b" := one] == map["b" := one];
  }

  /**
   * `testUnstaged`: a path listed in `files` whose current bytes differ from
   * `other` (or whose `other` is null) is in the way.
   */
  function TestUnstaged(wd: Wd, files: set<Path>, p: Path, other: Option<Blob>): (r: Option<Error>)
    ensures r.None? <==> p !in files || (p in wd && other.Some? && other.value.data == wd[p])
    ensures r.Some? && p in wd ==> r == Some(Thrown(ErrUnstaged))
    ensures r.Some? && p !in wd ==> r == Some(Thrown(FileMissing))
  {
    if p !in files then None
    else
      match NewBlob(wd, p)
      case Err(msg) => Some(Thrown(msg))
      case Ok(here) => if Blobs.Equals(here, other) then None else Some(Thrown(ErrUnstaged))
  }

  /**
   * `restoreWorkspace`: writes every snapshot file back. Files created since
   * the snapshot stay; files deleted since come back.
   */
  function RestoreWorkspace(current: Wd, snapshot: Wd): (r: Wd)
    ensures r.Keys == current.Keys + snapshot.Keys
    ensures forall p :: p in snapshot ==> r[p] == snapshot[p]
    ensures forall p :: p in current && p !in snapshot ==> r[p] == current[p]
  {
    current + snapshot
  }

  /** A rollback is exact when the interrupted command created no file the snapshot lacks. */
  lemma RollbackExact(current: Wd, snapshot: Wd)
    requires current.Keys <= snapshot.Keys
    ensures RestoreWorkspace(current, snapshot) == snapshot
  {
  }

  /** A rollback keeps a file the interrupted command created: it is not deleted. */
  lemma RollbackKeepsCreated()
    ensures RestoreWorkspace(map["new" := []], map[]) == map["new" := []]
  {
  }

  /** `restoreAllFiles` rethrows the untracked-file error and ends the process on any other. */
  function Escalate(e: Error): (r: Error)
    ensures r == Thrown(ErrUnstaged) <==> e == Thrown(ErrUnstaged)
    ensures r != Thrown(ErrUnstaged) ==> r.Abort?
  {
    if e == Thrown(ErrUnstaged) then e else Abort(e.msg)
  }

  /**
   * What the reconciler's guarantees rest on: objects are filed under their
   * digests, every blob either commit names is stored, and (for the write as
   * written) each target blob was read from the very path that names it.
   */
  ghost predicate Ready(st: Objects, target: map<Path, Digest>, head: map<Path, Digest>, atPath: bool) {
    && KeyedByDigest(st)
    && (forall p :: p in target ==> target[p] in st && st[target[p]].BlobObj? && (atPath || st[target[p]].blob.filename == p))
    && (forall p :: p in head ==> head[p] in st && st[head[p]].BlobObj?)
  }

  /**
   * A working file stops the reconciler: it would be overwritten with other
   * content, or deleted, and its bytes are not those the head commit tracks.
   */
  predicate Blocks(wd: Wd, target: map<Path, Digest>, head: map<Path, Digest>, p: Path)
    requires p in wd
  {
    var id := ContentId(wd[p]);
    if p in target then target[p] != id && Get(head, p) != Some(id)
    else p in head && head[p] != id
  }

  /** No working file blocks the reconciler. */
  ghost predicate Clear(wd0: Wd, target: map<Path, Digest>, head: map<Path, Digest>) {
    forall p :: p in wd0 ==> !Blocks(wd0, target, head, p)
  }

  /**
   * The working directory after a successful reconciliation: every target
   * path holds the target's bytes, a file neither commit tracks is left
   * alone, a file only the head tracks is gone, and nothing else appears.
   */
  ghost predicate Reconciled(wd0: Wd, wd: Wd, target: map<Path, Digest>, head: map<Path, Digest>) {
    && (forall p :: p in target ==> p in wd && ContentId(wd[p]) == target[p])
    && (forall p :: p in wd0 && p !in target && p !in head ==> p in wd && wd[p] == wd0[p])
    && (forall p :: p in wd0 && p !in target && p in head ==> p !in wd)
    && wd.Keys == (wd0.Keys - (head.Keys - target.Keys)) + target.Keys
  }

  /**
   * The first pass's work on one working file `f`: fetch the head's blob for
   * it; a file the target lacks is deleted if the head tracks it, and a file
   * whose bytes differ from the target's is overwritten, each only after
   * `testUnstaged` against the head's blob.
   */
  function SweepStep(st: Objects, wd: Wd, fileSet: set<Path>, target: map<Path, Digest>, head: map<Path, Digest>,
                     f: Path, atPath: bool): (r: Result<Wd, Error>)
    requires f in wd && f in fileSet
    ensures r.Err? && r.error.Thrown? ==> r.error.msg == ErrUnstaged
    ensures Ready(st, target, head, atPath) ==> (r.Err? <==> Blocks(wd, target, head, f))
    ensures Ready(st, target, head, atPath) && r.Err? ==> r.error == Thrown(ErrUnstaged)
    ensures Ready(st, target, head, atPath) && r.Ok? ==>
              && (forall x :: x != f ==> (x in r.value <==> x in wd))
              && (forall x :: x != f && x in wd ==> r.value[x] == wd[x])
              && (f in target ==> f in r.value && ContentId(r.value[f]) == target[f])
              && (f !in target && f in head ==> f !in r.value)
              && (f !in target && f !in head ==> f in r.value && r.value[f] == wd[f])
  {
    var thisBlob := if f in head then GetBlob(st, head[f]) else Err(MissingBlob);
    if f in head && thisBlob.Err? then Err(Abort(MissingBlob))
    else
      var other := if thisBlob.Ok? then Some(thisBlob.value) else None;
      if f !in target then
        if other.None? then Ok(wd)
        else
          match TestUnstaged(wd, fileSet, f, other)
          case Some(e) => Err(Escalate(e))
          case None => Ok(wd - {f})
      else if target[f] == Blob(f, wd[f]).Id() then Ok(wd)
      else
        match TestUnstaged(wd, fileSet, f, other)
        case Some(e) => Err(Escalate(e))
        case None =>
          match RestoreDigest(st, wd, f, target[f], atPath)
          case Err(e) => Err(Escalate(e))
          case Ok(w) => Ok(w)
  }

  /** What the first pass has done once the working files in `done` are handled. */
  ghost predicate SweepInv(wd0: Wd, wd: Wd, target: map<Path, Digest>, head: map<Path, Digest>, done: set<Path>) {
    && done <= wd0.Keys
    && (forall p :: p in wd0 && p !in done ==> p in wd && wd[p] == wd0[p])
    && (forall p :: p in done && p in target ==> p in wd && ContentId(wd[p]) == target[p])
    && (forall p :: p in done && p !in target && p in head ==> p !in wd)
    && (forall p :: p in done && p !in target && p !in head ==> p in wd && wd[p] == wd0[p])
    && (forall p :: p in done ==> !Blocks(wd0, target, head, p))
    && wd.Keys <= wd0.Keys
  }

  /** One successful step of the first pass extends its invariant by the file it handled. */
  lemma SweepAdvance(st: Objects, wd0: Wd, wd: Wd, target: map<Path, Digest>, head: map<Path, Digest>,
                     done: set<Path>, f: Path, atPath: bool)
    requires Ready(st, target, head, atPath) && SweepInv(wd0, wd, target, head, done)
    requires f in wd0 && f !in done
    requires SweepStep(st, wd, wd0.Keys, target, head, f, atPath).Ok?
    ensures SweepInv(wd0, SweepStep(st, wd, wd0.Keys, target, head, f, atPath).value, target, head, done + {f})
  {
    var next := SweepStep(st, wd, wd0.Keys, target, head, f, atPath).value;
    assert wd[f] == wd0[f];
    assert !Blocks(wd0, target, head, f);
    forall p | p in wd0 && p !in done + {f} ensures p in next && next[p] == wd0[p] {
    }
    forall p | p in done && p in target ensures p in next && ContentId(next[p]) == target[p] {
    }
  }

  /** The first pass of `restoreAllFiles`, over the working files in listing order. */
  method Sweep(st: Objects, wd0: Wd, target: map<Path, Digest>, head: map<Path, Digest>, files: seq<Path>, atPath: bool)
    returns (wd: Wd, err: Option<Error>)
    requires Enumerates(files, wd0.Keys)
    ensures err.Some? && err.value.Thrown? ==> err.value.msg == ErrUnstaged
    ensures Ready(st, target, head, atPath) ==> (err.None? <==> forall p :: p in wd0 ==> !Blocks(wd0, target, head, p))
    ensures Ready(st, target, head, atPath) && err.Some? ==> err == Some(Thrown(ErrUnstaged))
    ensures Ready(st, target, head, atPath) ==> wd.Keys <= wd0.Keys
    ensures Ready(st, target, head, atPath) && err.None? ==>
              && (forall p :: p in wd0 && p in target ==> p in wd && ContentId(wd[p]) == target[p])
              && (forall p :: p in wd0 && p !in target && p in head ==> p !in wd)
              && (forall p :: p in wd0 && p !in target && p !in head ==> p in wd && wd[p] == wd0[p])
  {
    wd := wd0;
    ghost var done: set<Path> := {};
    ghost var ready := Ready(st, target, head, atPath);
    var i := 0;
    while i < |files|
      invariant 0 <= i <= |files|
      invariant forall k :: i <= k < |files| ==> files[k] in wd && files[k] !in done
      invariant forall k :: 0 <= k < i ==> files[k] in done
      invariant done <= wd0.Keys
      invariant ready ==> SweepInv(wd0, wd, target, head, done)
    {
      var f := files[i];
      var s := SweepStep(st, wd, wd0.Keys, target, head, f, atPath);
      if s.Err? {
        if ready {
          assert Blocks(wd, target, head, f) && wd[f] == wd0[f];
        }
        return wd, Some(s.error);
      }
      if ready {
        SweepAdvance(st, wd0, wd, target, head, done, f, atPath);
      }
      wd := s.value;
      done := done + {f};
      i := i + 1;
    }
    assert done == wd0.Keys;
    return wd, None;
  }

  /** What the second pass has done once the target paths in `created` are handled. */
  ghost predicate FillInv(wd1: Wd, wd: Wd, target: map<Path, Digest>, created: set<Path>) {
    && (forall p :: p in target && p in wd1 ==> p in wd && wd[p] == wd1[p])
    && (forall p :: p in created ==> p in target && p in wd && (p !in wd1 ==> ContentId(wd[p]) == target[p]))
    && (forall p :: p in wd1 && p !in target ==> p in wd && wd[p] == wd1[p])
    && wd.Keys == wd1.Keys + created
  }

  /** Under `Ready`, the blob a target path names is stored, carries that digest, and (as written) names that path. */
  lemma TargetBlob(st: Objects, target: map<Path, Digest>, head: map<Path, Digest>, atPath: bool, p: Path)
    requires Ready(st, target, head, atPath) && p in target
    ensures GetBlob(st, target[p]).Ok?
    ensures ContentId(GetBlob(st, target[p]).value.data) == target[p]
    ensures atPath || GetBlob(st, target[p]).value.filename == p
  {
    assert ObjSha(st[target[p]]) == target[p];
  }

  /** Writing a missing target path with bytes of its target digest extends the second pass's invariant by that path. */
  lemma FillExtend(wd1: Wd, wd: Wd, target: map<Path, Digest>, created: set<Path>, p: Path, data: Bytes)
    requires FillInv(wd1, wd, target, created)
    requires p in target && p !in created && p !in wd && ContentId(data) == target[p]
    ensures FillInv(wd1, wd[p := data], target, created + {p})
  {
    var next := wd[p := data];
    forall q | q in target && q in wd1 ensures q in next && next[q] == wd1[q] {
      assert q in wd && q != p;
    }
    forall q | q in wd1 && q !in target ensures q in next && next[q] == wd1[q] {
      assert q in wd && q != p;
    }
  }

  /** Creating and restoring one missing target path extends the second pass's invariant by that path. */
  lemma FillAdvance(st: Objects, wd1: Wd, wd: Wd, target: map<Path, Digest>, created: set<Path>, p: Path, atPath: bool)
    requires Ready(st, target, map[], atPath) && FillInv(wd1, wd, target, created)
    requires p in target && p !in created && p !in wd
    ensures RestoreDigest(st, wd[p := []], p, target[p], atPath).Ok?
    ensures FillInv(wd1, RestoreDigest(st, wd[p := []], p, target[p], atPath).value, target, created + {p})
  {
    TargetBlob(st, target, map[], atPath, p);
    var b := GetBlob(st, target[p]).value;
    assert WriteBlob(wd[p := []], p, b, atPath) == wd[p := b.data];
    FillExtend(wd1, wd, target, created, p, b.data);
  }

  /** The second pass: each target path missing from disk is created empty and then restored. */
  method Fill(st: Objects, wd1: Wd, target: map<Path, Digest>, order: seq<Path>, atPath: bool)
    returns (wd: Wd, err: Option<Error>)
    requires Enumerates(order, target.Keys)
    ensures err.Some? ==> err.value.Abort?
    ensures Ready(st, target, map[], atPath) ==>
              && err.None?
              && (forall p :: p in target && p in wd1 ==> p in wd && wd[p] == wd1[p])
              && (forall p :: p in target ==> p in wd && (p !in wd1 ==> ContentId(wd[p]) == target[p]))
              && (forall p :: p in wd1 && p !in target ==> p in wd && wd[p] == wd1[p])
              && wd.Keys == wd1.Keys + target.Keys
  {
    wd := wd1;
    ghost var created: set<Path> := {};
    ghost var ready := Ready(st, target, map[], atPath);
    var j := 0;
    while j < |order|
      invariant 0 <= j <= |order|
      invariant forall k :: j <= k < |order| ==> order[k] !in created
      invariant forall k :: 0 <= k < j ==> order[k] in created
      invariant created <= target.Keys
      invariant ready ==> FillInv(wd1, wd, target, created)
    {
      var p := order[j];
      if p !in wd {
        if ready {
          FillAdvance(st, wd1, wd, target, created, p, atPath);
        }
        wd := wd[p := []];
        var w := RestoreDigest(st, wd, p, target[p], atPath);
        if w.Err? {
          return wd, Some(Escalate(w.error));
        }
        wd := w.value;
      }
      created := created + {p};
      j := j + 1;
    }
    return wd, None;
  }

  /**
   * `restoreAllFiles(target)` with `head` the mapping of whatever
   * `getHeadCommit()` returns at that moment. `files` is the listing order of
   * the working directory and `order` the iteration order of `target`.
   */
  method RestoreAllFiles(st: Objects, wd0: Wd, target: map<Path, Digest>, head: map<Path, Digest>,
                         files: seq<Path>, order: seq<Path>, atPath: bool)
    returns (wd: Wd, err: Option<Error>)
    requires Enumerates(files, wd0.Keys) && Enumerates(order, target.Keys)
    ensures err.Some? && err.value.Thrown? ==> err.value.msg == ErrUnstaged
    ensures Ready(st, target, head, atPath) ==> (err.None? <==> Clear(wd0, target, head))
    ensures Ready(st, target, head, atPath) && err.Some? ==> err == Some(Thrown(ErrUnstaged)) && wd.Keys <= wd0.Keys
    ensures Ready(st, target, head, atPath) && err.None? ==> Reconciled(wd0, wd, target, head)
  {
    var wd1, e1 := Sweep(st, wd0, target, head, files, atPath);
    if e1.Some? {
      return wd1, e1;
    }
    ReadyWithoutHead(st, target, head, atPath);
    wd, err := Fill(st, wd1, target, order, atPath);
  }

  lemma ReadyWithoutHead(st: Objects, target: map<Path, Digest>, head: map<Path, Digest>, atPath: bool)
    ensures Ready(st, target, head, atPath) ==> Ready(st, target, map[], atPath)
  {
  }
}
