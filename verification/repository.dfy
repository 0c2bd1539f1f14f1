/**
 * The repository as a value: object store, branch refs, HEAD, stage file,
 * working directory and commit logs, with the staging and branch commands
 * as transformations of it. A command yields the repository it leaves
 * behind and the error it ended with, if any.
 */
module Repository {
  import opened Wrappers
  import opened Digests
  import opened Blobs
  import opened Commits
  import opened Store
  import opened Workspace
  import HeadRef
  import CommitLog

  const BrokenDirectory: string := "Broken gitlet directory!"
  const NoSuchBranch: string := "No such branch exists."
  /** An uncaught `IllegalArgumentException` from reading a directory or a missing file as text. */
  const NotAFile: string := "IllegalArgumentException"
  /** An uncaught `NullPointerException`. */
  const NullReference: string := "NullPointerException"
  /** An uncaught `IOException` from creating a file in a directory that does not exist. */
  const NoDirectory: string := "IOException"
  const NoReasonToRemove: string := "No reason to remove the file."
  const NoChanges: string := "No changes added to the commit."
  const NoMessage: string := "Please enter a commit message."
  const BranchExists: string := "A branch with that name already exists."
  const BranchMissing: string := "A branch with that name does not exist."
  const RemoveCurrent: string := "Cannot remove the current branch."
  const CheckoutCurrent: string := "No need to checkout the current branch."
  const NoSuchCommit: string := "No commit with that id exists."

  /** The stage file only ever holds a staging record. */
  type StagedRecord = c: Commit | c.Staged? witness Staged(map[], map[], {}, None)

  /** One line of a branch log: parent digest (zero for none), commit digest, time, message. */
  datatype LogRecord = LogRecord(parent: Digest, sha: Digest, millis: int, message: string)

  datatype Repo = Repo(
    store: Objects,
    /** `refs/heads/<branch>`: the head commit of each branch. */
    refs: map<string, Digest>,
    /** The branch `updateRootHead` last wrote; HEAD holds `refs/heads/<head>`. */
    head: string,
    /** The stage file, when it exists. */
    stage: Option<StagedRecord>,
    wd: Wd,
    /** `logs/refs/heads/<branch>`, for the branches that have one. */
    logs: map<string, seq<LogRecord>>,
    /** `logs/refs/removed`, once created. */
    removedLog: Option<seq<LogRecord>>)

  /** What a command leaves behind, and the error it ended with. */
  datatype Step = Step(repo: Repo, err: Option<Error>)

  /** Names that resolve to a directory under `refs/heads`: `exists()` holds, reading them as text throws. */
  predicate DirName(name: string) {
    name == "" || name == "." || name == ".."
  }

  /** An ordinary branch name. */
  predicate PlainName(name: string) {
    '/' !in name && !DirName(name)
  }

  /** `Utils.join(REFS_HEADS_DIR, name).exists()`. */
  predicate RefExists(r: Repo, name: string) {
    name in r.refs || DirName(name)
  }

  /** `getCurrentBranch`: the text of HEAD after its last '/'. */
  function CurrentBranch(r: Repo): (b: string)
    ensures '/' !in r.head ==> b == r.head
  {
    var b := HeadRef.CurrentBranch(HeadRef.HeadText(r.head));
    assert '/' !in r.head ==> b == r.head by {
      if '/' !in r.head {
        HeadRef.HeadRoundTrip(r.head);
      }
    }
    b
  }

  /** `readCommitRef` followed by `readCommitObject`: the commit a ref file names. */
  function ReadRef(r: Repo, name: string): (c: Result<Commit, Error>)
    ensures c.Ok? <==> PlainRefOk(r, name)
    ensures c.Ok? ==> c.value == r.store[r.refs[name]].commit
  {
    if DirName(name) then Err(Abort(NotAFile))
    else if name !in r.refs then Err(Thrown(BrokenDirectory))
    else match GetCommit(r.store, r.refs[name])
      case Err(msg) => Err(Thrown(msg))
      case Ok(c) => Ok(c)
  }

  predicate PlainRefOk(r: Repo, name: string) {
    !DirName(name) && name in r.refs && r.refs[name] in r.store && r.store[r.refs[name]].CommitObj?
  }

  /** `getHeadCommit()`: the commit the current branch's ref names. */
  function HeadCommit(r: Repo): (c: Result<Commit, Error>)
    ensures c.Ok? <==> PlainRefOk(r, r.head)
    ensures c.Ok? ==> c.value == r.store[r.refs[r.head]].commit
    ensures DirName(r.head) ==> c == Err(Abort(NotAFile))
    ensures !DirName(r.head) && r.head !in r.refs ==> c == Err(Thrown(BrokenDirectory))
  {
    ReadRef(r, r.head)
  }

  /** `getHeadCommit(branch)`: refuses a branch without a ref file. */
  function BranchHead(r: Repo, name: string): (c: Result<Commit, Error>)
    ensures !RefExists(r, name) ==> c == Err(Thrown(NoSuchBranch))
    ensures RefExists(r, name) ==> c == ReadRef(r, name)
  {
    if !RefExists(r, name) then Err(Thrown(NoSuchBranch)) else ReadRef(r, name)
  }

  /** `getStagedCommit`: the stage file, or a fresh staging record on top of the head commit. */
  function StagedCommit(r: Repo): (s: Result<StagedRecord, Error>)
    ensures r.stage.Some? ==> s == Ok(r.stage.value)
    ensures r.stage.None? ==> (s.Ok? <==> HeadCommit(r).Ok?)
    ensures r.stage.None? && s.Ok? ==> s.value == CreateStaged(HeadCommit(r).value)
  {
    if r.stage.Some? then Ok(r.stage.value)
    else match HeadCommit(r)
      case Err(e) => Err(e)
      case Ok(h) => Ok(CreateStaged(h))
  }

  /** Every digest of the mapping names a stored blob. */
  ghost predicate BlobsStored(st: Objects, m: map<Path, Digest>) {
    forall p :: p in m ==> m[p] in st && st[m[p]].BlobObj?
  }

  ghost predicate CommitStored(st: Objects, d: Option<Digest>) {
    d.Some? ==> d.value in st && st[d.value].CommitObj?
  }

  /** A stored commit is finished, and its blobs and parents are stored too. */
  ghost predicate CommitClosed(st: Objects, c: Commit) {
    && c.Finished?
    && BlobsStored(st, c.blobs)
    && CommitStored(st, c.parent)
    && CommitStored(st, c.mergeParent)
  }

  /**
   * A consistent repository: HEAD names an ordinary branch with a ref,
   * objects are filed under their digests, every ref names a stored commit
   * whose history and blobs are stored, and the stage file is well formed
   * on a stored parent.
   */
  ghost predicate Valid(r: Repo) {
    && PlainName(r.head) && r.head in r.refs
    && KeyedByDigest(r.store)
    && (forall b :: b in r.refs ==> PlainName(b) && r.refs[b] in r.store && r.store[r.refs[b]].CommitObj?)
    && (forall d :: d in r.store && r.store[d].CommitObj? ==> CommitClosed(r.store, r.store[d].commit))
    && (r.stage.Some? ==> StageWf(r.stage.value) && BlobsStored(r.store, r.stage.value.blobs)
                          && CommitStored(r.store, r.stage.value.parent))
  }

  /** In a valid repository the head commit and the staging record can always be read. */
  lemma ValidReads(r: Repo)
    requires Valid(r)
    ensures CurrentBranch(r) == r.head
    ensures HeadCommit(r).Ok? && CommitClosed(r.store, HeadCommit(r).value)
    ensures StagedCommit(r).Ok? && StageWf(StagedCommit(r).value) && BlobsStored(r.store, StagedCommit(r).value.blobs)
    ensures StagedCommit(r).Ok? && CommitStored(r.store, StagedCommit(r).value.parent)
  {
    assert PlainRefOk(r, r.head);
  }

  /**
   * `add`: a path pending removal is only taken out of `removed`, and its
   * base content is written back. Otherwise the working file is staged; a
   * missing working file instead unstages the path, or marks a tracked
   * path removed.
   */
  function Add(r: Repo, f: Path): (s: Step)
    ensures StagedCommit(r).Err? ==> s == Step(r, Some(StagedCommit(r).error))
    ensures StagedCommit(r).Ok? && f in StagedCommit(r).value.removed ==>
              var st := StagedCommit(r).value;
              var base := Get(st.blobs, f);
              && (base.None? ==> s == Step(r, Some(Abort(NullReference))))
              && (base.Some? && GetBlob(r.store, base.value).Err? ==> s == Step(r, Some(Thrown(MissingBlob))))
              && (base.Some? && GetBlob(r.store, base.value).Ok? ==>
                    && s.err.None?
                    && s.repo.stage == Some(st.(removed := st.removed - {f}))
                    && s.repo.wd == WriteBlob(r.wd, f, GetBlob(r.store, base.value).value, false)
                    && s.repo.refs == r.refs && s.repo.store == r.store)
    ensures StagedCommit(r).Ok? && f !in StagedCommit(r).value.removed && f in r.wd ==>
              var st := StagedCommit(r).value;
              && s.err.None? && s.repo.wd == r.wd && s.repo.refs == r.refs && s.repo.store == r.store
              && StagedCommit(s.repo).Ok?
              && f !in GetUnstaged(StagedCommit(s.repo).value, r.wd)
              && StagedCommit(s.repo).value.blobs == st.blobs
              && StagedCommit(s.repo).value.removed == st.removed
              && StagedCommit(s.repo).value.added - {f} == st.added - {f}
    ensures StagedCommit(r).Ok? && f !in StagedCommit(r).value.removed && f !in r.wd ==>
              var st := StagedCommit(r).value;
              && (f !in st.blobs && f !in st.added ==> s == Step(r, Some(Thrown(FileMissing))))
              && (f in st.blobs || f in st.added ==>
                    && s.err.None? && s.repo.wd == r.wd
                    && s.repo.stage == Some(RemoveFromAll(st, f).1))
  {
    match StagedCommit(r)
    case Err(e) => Step(r, Some(e))
    case Ok(st) =>
      var (readded, st1) := ReaddFromRemoved(st, f);
      if readded then
        match Get(st1.blobs, f)
        case None => Step(r, Some(Abort(NullReference)))
        case Some(d) =>
          match GetBlob(r.store, d)
          case Err(msg) => Step(r, Some(Thrown(msg)))
          case Ok(b) => Step(r.(wd := WriteBlob(r.wd, f, b, false), stage := Some(st1)), None)
      else
        match NewBlob(r.wd, f)
        case Ok(blob) =>
          var (changed, st2) := AddToStage(st, blob);
          if changed then Step(r.(stage := Some(st2)), None) else Step(r, None)
        case Err(_) =>
          var (removed, st2) := RemoveFromAll(st, f);
          if !removed then Step(r, Some(Thrown(FileMissing)))
          else Step(r.(stage := Some(st2)), None)
  }

  /**
   * `remove`: a staged path is only unstaged; otherwise a tracked path is
   * marked removed and its working file deleted.
   */
  function Remove(r: Repo, f: Path): (s: Step)
    ensures StagedCommit(r).Err? ==> s == Step(r, Some(StagedCommit(r).error))
    ensures StagedCommit(r).Ok? ==>
              var st := StagedCommit(r).value;
              && (f in st.added ==>
                    s == Step(r.(stage := Some(st.(added := st.added - {f}))), None))
              && (f !in st.added && f in st.blobs ==>
                    s == Step(r.(stage := Some(st.(removed := st.removed + {f})), wd := r.wd - {f}), None))
              && (f !in st.added && f !in st.blobs ==>
                    s == Step(r, Some(Thrown(NoReasonToRemove))))
  {
    match StagedCommit(r)
    case Err(e) => Step(r, Some(e))
    case Ok(st) =>
      var (unstaged, st1) := RemoveFromStage(st, f);
      var (untracked, st2) := if unstaged then (false, st1) else RemoveFromCommit(st, f);
      var wd := if untracked then r.wd - {f} else r.wd;
      if !unstaged && !untracked then Step(r, Some(Thrown(NoReasonToRemove)))
      else Step(r.(stage := Some(st2), wd := wd), None)
  }

  /** Removing a tracked, unstaged path and adding it back restores the stage and the file. */
  lemma RemoveThenAdd(r: Repo, f: Path)
    requires Valid(r)
    requires var st := StagedCommit(r).value; f in st.blobs && f !in st.added && f !in st.removed
    requires r.store[StagedCommit(r).value.blobs[f]].blob.filename == f
    ensures var s := Add(Remove(r, f).repo, f);
            && s.err.None?
            && s.repo.stage == Some(StagedCommit(r).value)
            && f in s.repo.wd && ContentId(s.repo.wd[f]) == StagedCommit(r).value.blobs[f]
  {
    ValidReads(r);
    var st := StagedCommit(r).value;
    var r1 := Remove(r, f).repo;
    assert StagedCommit(r1) == Ok(st.(removed := st.removed + {f}));
    assert st.(removed := st.removed + {f}).(removed := st.removed + {f} - {f}) == st;
  }

  /** `String.isBlank`'s `Character.isWhitespace`: separators other than the non-breaking spaces, and the ASCII controls. */
  predicate JavaWhitespace(c: char) {
    var n := c as int;
    || 0x09 <= n <= 0x0D || 0x1C <= n <= 0x20
    || n == 0x1680 || 0x2000 <= n <= 0x2006 || 0x2008 <= n <= 0x200A
    || n == 0x2028 || n == 0x2029 || n == 0x205F || n == 0x3000
  }

  /** Code points 0x1C to 0x1F count as whitespace; the non-breaking spaces U+00A0, U+2007 and U+202F do not. */
  lemma WhitespaceEdges()
    ensures JavaWhitespace('\U{1C}') && JavaWhitespace('\U{3000}')
    ensures !JavaWhitespace('\U{A0}') && !JavaWhitespace('\U{2007}') && !JavaWhitespace('\U{202F}')
  {
  }

  /** `indexOfNonWhitespace`: the length of the leading whitespace run. */
  function LeadingBlank(s: string): (k: nat)
    ensures k <= |s|
    ensures forall i :: 0 <= i < k ==> JavaWhitespace(s[i])
    ensures k < |s| ==> !JavaWhitespace(s[k])
  {
    if s == [] || !JavaWhitespace(s[0]) then 0 else 1 + LeadingBlank(s[1..])
  }

  /** `String.isBlank`: the leading whitespace run covers the whole text. */
  function IsBlank(message: string): (r: bool)
    ensures r <==> forall i :: 0 <= i < |message| ==> JavaWhitespace(message[i])
    ensures message == [] ==> r
  {
    LeadingBlank(message) == |message|
  }

  /** The pending blobs in `getAddedBlobs()` order. */
  function AddedInOrder(st: Commit, order: seq<Path>): (bs: seq<Blob>)
    requires st.Staged? && forall i :: 0 <= i < |order| ==> order[i] in st.added
    ensures |bs| == |order| && forall i :: 0 <= i < |order| ==> bs[i] == st.added[order[i]]
  {
    seq(|order|, i requires 0 <= i < |order| => st.added[order[i]])
  }

  /** The log line `writeCommitLog` appends for a finished commit. */
  function Record(c: Commit): (l: LogRecord)
    requires c.Finished?
    ensures l.sha == c.Sha() && l.sha.CommitHash?
    ensures c.parent.Some? ==> l.parent == c.parent.value
    ensures c.parent.None? ==> l.parent == Zero
    ensures l.millis == c.timestamp && l.message == c.message
  {
    LogRecord(c.parent.GetOr(Zero), c.Sha(), c.timestamp, c.message)
  }

  /**
   * `writeCommitFiles`: the log line, then the branch ref, then the object.
   * An object already present ends the process with the log and ref written.
   */
  function WriteCommitFiles(r: Repo, c: Commit): (s: Step)
    requires c.Finished?
    ensures s.repo.refs == r.refs[c.branch := c.Sha()]
    ensures s.repo.logs == r.logs[c.branch := Get(r.logs, c.branch).GetOr([]) + [Record(c)]]
    ensures s.repo.wd == r.wd && s.repo.stage == r.stage && s.repo.head == r.head
    ensures c.Sha() in r.store ==> s.err == Some(Abort(ObjectExists)) && s.repo.store == r.store
    ensures c.Sha() !in r.store ==> s.err.None? && Put(r.store, CommitObj(c)) == Ok(s.repo.store)
  {
    var logs := r.logs[c.branch := Get(r.logs, c.branch).GetOr([]) + [Record(c)]];
    var r1 := r.(logs := logs, refs := r.refs[c.branch := c.Sha()]);
    match Put(r.store, CommitObj(c))
    case Err(msg) => Step(r1, Some(Abort(msg)))
    case Ok(st) => Step(r1.(store := st), None)
  }

  /**
   * The part of `commit` after its two checks: the pending blobs stored,
   * the commit files written and the stage deleted. It fails only when an
   * identical commit object is already stored.
   */
  function StoreCommit(r: Repo, blobs: seq<Blob>, c: Commit): (s: Step)
    requires c.Finished?
    ensures s.err.None? <==> c.Sha() !in r.store
    ensures s.err.Some? ==> s.err == Some(Abort(ObjectExists))
    ensures s.repo.refs == r.refs[c.branch := c.Sha()]
    ensures s.repo.wd == r.wd && s.repo.head == r.head
    ensures forall d :: d in r.store ==> d in s.repo.store && s.repo.store[d] == r.store[d]
    ensures KeyedByDigest(r.store) ==> forall b :: b in blobs ==> GetBlob(s.repo.store, b.Id()).Ok?
    ensures s.err.None? ==> GetCommit(s.repo.store, c.Sha()) == Ok(c) && s.repo.stage.None?
  {
    var st1 := PutBlobs(r.store, blobs);
    IdsAreBlobDigests(blobs, c.Sha());
    forall b | b in blobs && KeyedByDigest(r.store)
      ensures b.Id() in st1 && st1[b.Id()].BlobObj?
    {
      if b.Id() in r.store {
        assert ObjSha(r.store[b.Id()]) == b.Id();
      }
    }
    var s1 := WriteCommitFiles(r.(store := st1), c);
    if s1.err.Some? then s1 else Step(s1.repo.(stage := None), None)
  }

  lemma AddedStored(st: Commit, order: seq<Path>)
    requires st.Staged? && Enumerates(order, st.added.Keys)
    ensures forall p :: p in st.added ==> st.added[p].Id() in Ids(AddedInOrder(st, order))
  {
    var blobs := AddedInOrder(st, order);
    forall p | p in st.added
      ensures st.added[p].Id() in Ids(blobs)
    {
      var i :| 0 <= i < |order| && order[i] == p;
      assert blobs[i] == st.added[p];
    }
  }

  /**
   * `commit`: refuses an empty stage before a blank message; otherwise it
   * finishes the staging record at time `now`, stores the pending blobs
   * (in `order`) and the commit, advances the branch and deletes the stage.
   */
  function CommitCmd(r: Repo, message: string, now: int, order: seq<Path>): (s: Step)
    requires StagedCommit(r).Ok? ==> Enumerates(order, StagedCommit(r).value.added.Keys)
    ensures StagedCommit(r).Err? ==> s == Step(r, Some(StagedCommit(r).error))
    ensures StagedCommit(r).Ok? && !HasStagedChanges(StagedCommit(r).value) ==> s == Step(r, Some(Thrown(NoChanges)))
    ensures StagedCommit(r).Ok? && HasStagedChanges(StagedCommit(r).value) && IsBlank(message) ==>
              s == Step(r, Some(Thrown(NoMessage)))
    ensures StagedCommit(r).Ok? && HasStagedChanges(StagedCommit(r).value) && !IsBlank(message) ==>
              s == StoreCommit(r, AddedInOrder(StagedCommit(r).value, order),
                               Finish(StagedCommit(r).value, CurrentBranch(r), message, now, None))
  {
    match StagedCommit(r)
    case Err(e) => Step(r, Some(e))
    case Ok(st) =>
      var branch := CurrentBranch(r);
      if !HasStagedChanges(st) then Step(r, Some(Thrown(NoChanges)))
      else if IsBlank(message) then Step(r, Some(Thrown(NoMessage)))
      else StoreCommit(r, AddedInOrder(st, order), Finish(st, branch, message, now, None))
  }

  /** After a commit the head commit reads back as the finished stage, and the next stage starts clean on it. */
  lemma CommitReadBack(r: Repo, message: string, now: int, order: seq<Path>)
    requires Valid(r)
    requires Enumerates(order, StagedCommit(r).value.added.Keys)
    requires CommitCmd(r, message, now, order).err.None?
    ensures var s := CommitCmd(r, message, now, order).repo;
            var st := StagedCommit(r).value;
            && HeadCommit(s) == Ok(Finish(st, r.head, message, now, None))
            && HeadCommit(s).value.blobs == (st.blobs - st.removed) + AddedDigests(st)
            && StagedCommit(s).Ok? && !HasStagedChanges(StagedCommit(s).value)
            && StagedCommit(s).value.parent == Some(HeadCommit(s).value.Sha())
  {
    ValidReads(r);
  }

  /**
   * The components of `refs/heads/<name>` below `refs/heads` once the path
   * is joined and resolved: empty components (a leading, doubled or trailing
   * `/`) and `.` components stand for no step.
   */
  function Components(name: string): (cs: seq<string>)
    ensures forall i :: 0 <= i < |cs| ==> '/' !in cs[i] && cs[i] != "" && cs[i] != "."
    ensures PlainName(name) ==> cs == [name]
    decreases |name|
  {
    if '/' !in name then (if name == "" || name == "." then [] else [name])
    else
      var i := CommitLog.IndexOf(name, '/');
      Components(name[..i]) + Components(name[i + 1..])
  }

  /**
   * `createNewBranch`: a new ref at the head commit; the branch gets no log.
   * `refs/heads` holds only ref files, so a name that resolves to the
   * directory itself or to its parent exists already, a name of one
   * component is that branch, and a name of several components has a file or
   * nothing where a directory should be, so `createNewFile` fails. The source
   * creates the ref file before it reads the head commit, so an unreadable
   * head would leave an empty ref behind; in a `Valid` repository the head
   * commit is always readable, and that path is not modelled.
   */
  function CreateNewBranch(r: Repo, name: string): (s: Step)
    ensures var cs := Components(name);
            cs == [] || cs == [".."] ==> s == Step(r, Some(Thrown(BranchExists)))
    ensures var cs := Components(name);
            |cs| == 1 && cs[0] != ".." && cs[0] in r.refs ==> s == Step(r, Some(Thrown(BranchExists)))
    ensures var cs := Components(name);
            |cs| == 1 && cs[0] != ".." && cs[0] !in r.refs && HeadCommit(r).Ok? ==>
              && s.err.None?
              && s.repo == r.(refs := r.refs[cs[0] := HeadCommit(r).value.Sha()])
    ensures var cs := Components(name);
            |cs| >= 2 && cs[0] != ".." ==> s == Step(r, Some(Abort(NoDirectory)))
    ensures PlainName(name) && name !in r.refs && HeadCommit(r).Ok? ==>
              s == Step(r.(refs := r.refs[name := HeadCommit(r).value.Sha()]), None)
  {
    var cs := Components(name);
    if cs == [] || cs == [".."] then Step(r, Some(Thrown(BranchExists)))
    else if |cs| == 1 then
      if cs[0] in r.refs then Step(r, Some(Thrown(BranchExists)))
      else match HeadCommit(r)
        case Err(e) => Step(r, Some(e))
        case Ok(h) => Step(r.(refs := r.refs[cs[0] := h.Sha()]), None)
    else Step(r, Some(Abort(NoDirectory)))
  }

  /** `./x` and `x/` name branch `x`; `./m` is refused when branch `m` exists; `x/y` has no directory `x`. */
  lemma BranchNameResolution(r: Repo, x: string, y: string)
    requires PlainName(x) && PlainName(y)
    ensures CreateNewBranch(r, "./" + x) == CreateNewBranch(r, x)
    ensures CreateNewBranch(r, x + "/") == CreateNewBranch(r, x)
    ensures x in r.refs ==> CreateNewBranch(r, "./" + x) == Step(r, Some(Thrown(BranchExists)))
    ensures CreateNewBranch(r, x + "/" + y) == Step(r, Some(Abort(NoDirectory)))
  {
    LeadingDot(r, x);
    TrailingSlash(r, x);
    NestedName(r, x, y);
  }

  lemma LeadingDot(r: Repo, x: string)
    requires PlainName(x)
    ensures CreateNewBranch(r, "./" + x) == CreateNewBranch(r, x)
  {
    ComponentsAt(".", x);
    assert "./" + x == "." + ['/'] + x;
    SameComponents(r, "./" + x, x);
  }

  lemma TrailingSlash(r: Repo, x: string)
    requires PlainName(x)
    ensures CreateNewBranch(r, x + "/") == CreateNewBranch(r, x)
  {
    ComponentsAt(x, "");
    assert x + "/" == x + ['/'] + "";
    SameComponents(r, x + "/", x);
  }

  lemma NestedName(r: Repo, x: string, y: string)
    requires PlainName(x) && PlainName(y)
    ensures CreateNewBranch(r, x + "/" + y) == Step(r, Some(Abort(NoDirectory)))
  {
    ComponentsAt(x, y);
    assert x + "/" + y == x + ['/'] + y;
  }

  /** `createNewBranch` depends on a name only through its resolved components. */
  lemma SameComponents(r: Repo, a: string, b: string)
    requires Components(a) == Components(b)
    ensures CreateNewBranch(r, a) == CreateNewBranch(r, b)
  {
  }

  lemma ComponentsAt(a: string, rest: string)
    requires '/' !in a
    ensures Components(a + ['/'] + rest) == Components(a) + Components(rest)
  {
    var s := a + ['/'] + rest;
    CommitLog.IndexOfAfter(a, '/', rest);
    assert s[..|a|] == a && s[|a| + 1..] == rest;
  }

  /**
   * `removeBranch`: after the two checks it makes sure the removed-branch
   * log exists, appends the branch's log to it and deletes the ref and the
   * log. A branch without a log file ends the process after the empty
   * removed-branch log was created.
   */
  function RemoveBranch(r: Repo, name: string): (s: Step)
    ensures !RefExists(r, name) ==> s == Step(r, Some(Thrown(BranchMissing)))
    ensures RefExists(r, name) && name == CurrentBranch(r) ==> s == Step(r, Some(Thrown(RemoveCurrent)))
    ensures RefExists(r, name) && name != CurrentBranch(r) && (DirName(name) || name !in r.logs) ==>
              s == Step(r.(removedLog := Some(r.removedLog.GetOr([]))), Some(Abort(NotAFile)))
    ensures RefExists(r, name) && name != CurrentBranch(r) && !DirName(name) && name in r.logs ==>
              && s.err.None?
              && s.repo == r.(refs := r.refs - {name}, logs := r.logs - {name},
                              removedLog := Some(r.removedLog.GetOr([]) + r.logs[name]))
  {
    if !RefExists(r, name) then Step(r, Some(Thrown(BranchMissing)))
    else if name == CurrentBranch(r) then Step(r, Some(Thrown(RemoveCurrent)))
    else
      var previous := r.removedLog.GetOr([]);
      var r1 := r.(removedLog := Some(previous));
      if DirName(name) || name !in r.logs then Step(r1, Some(Abort(NotAFile)))
      else Step(r1.(refs := r.refs - {name}, logs := r.logs - {name}, removedLog := Some(previous + r.logs[name])), None)
  }

  /** `removeBranch` with a missing branch log read as empty. */
  function RemoveBranchCorrected(r: Repo, name: string): (s: Step)
    ensures !RefExists(r, name) ==> s == Step(r, Some(Thrown(BranchMissing)))
    ensures RefExists(r, name) && name == CurrentBranch(r) ==> s == Step(r, Some(Thrown(RemoveCurrent)))
    ensures RefExists(r, name) && name != CurrentBranch(r) && !DirName(name) ==>
              && s.err.None? && name !in s.repo.refs && name !in s.repo.logs
              && s.repo.removedLog == Some(r.removedLog.GetOr([]) + Get(r.logs, name).GetOr([]))
              && (forall b :: b in r.refs && b != name ==> b in s.repo.refs && s.repo.refs[b] == r.refs[b])
  {
    if !RefExists(r, name) then Step(r, Some(Thrown(BranchMissing)))
    else if name == CurrentBranch(r) then Step(r, Some(Thrown(RemoveCurrent)))
    else if DirName(name) then Step(r.(removedLog := Some(r.removedLog.GetOr([]))), Some(Abort(NotAFile)))
    else
      var previous := r.removedLog.GetOr([]);
      Step(r.(refs := r.refs - {name}, logs := r.logs - {name}, removedLog := Some(previous + Get(r.logs, name).GetOr([]))), None)
  }

  /** A branch is created without a log, so removing it straight away ends the process and leaves it in place. */
  lemma RemoveFreshBranchCrashes(r: Repo, name: string)
    requires Valid(r) && PlainName(name) && name !in r.refs && name !in r.logs
    ensures var s := RemoveBranch(CreateNewBranch(r, name).repo, name);
            s.err == Some(Abort(NotAFile)) && name in s.repo.refs
  {
    ValidReads(r);
  }

  /** With the correction, creating and then removing a branch leaves every ref as it was. */
  lemma CreateThenRemoveBranch(r: Repo, name: string)
    requires Valid(r) && PlainName(name) && name !in r.refs
    ensures var s := RemoveBranchCorrected(CreateNewBranch(r, name).repo, name);
            s.err.None? && s.repo.refs == r.refs
  {
    ValidReads(r);
    var r1 := CreateNewBranch(r, name).repo;
    assert r1.refs - {name} == r.refs;
  }
}
