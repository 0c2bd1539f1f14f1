/** The content-addressed object store: digest to blob or commit, written once. */
module Store {
  import opened Wrappers
  import opened Digests
  import opened Blobs
  import opened Commits

  const ObjectExists: string := "Object exists!"
  const MissingBlob: string := "Object file referred by blob ref doesn't exist!"
  const MissingCommit: string := "Object file referred by commit ref doesn't exist!"

  datatype Obj = BlobObj(blob: Blob) | CommitObj(commit: Commit)

  type Objects = map<Digest, Obj>

  function ObjSha(o: Obj): Digest {
    match o
    case BlobObj(b) => b.Id()
    case CommitObj(c) => c.Sha()
  }

  /** Every object is filed under its own digest. */
  ghost predicate KeyedByDigest(st: Objects) {
    forall d :: d in st ==> ObjSha(st[d]) == d
  }

  /** `writeGitletObject`: refuses to overwrite an existing object file. */
  function Put(st: Objects, o: Obj): (r: Result<Objects, string>)
    ensures r.Err? <==> ObjSha(o) in st
    ensures r.Err? ==> r.error == ObjectExists
    ensures r.Ok? ==> r.value.Keys == st.Keys + {ObjSha(o)} && r.value[ObjSha(o)] == o
    ensures r.Ok? ==> forall d :: d in st ==> r.value[d] == st[d]
    ensures r.Ok? && KeyedByDigest(st) ==> KeyedByDigest(r.value)
  {
    var d := ObjSha(o);
    if d in st then Err(ObjectExists) else Ok(st[d := o])
  }

  /** `readBlobObject`: fails when the file is absent or holds another kind of object. */
  function GetBlob(st: Objects, d: Digest): (r: Result<Blob, string>)
    ensures r.Ok? <==> d in st && st[d].BlobObj?
    ensures r.Ok? ==> r.value == st[d].blob
    ensures r.Err? ==> r.error == MissingBlob
  {
    if d in st && st[d].BlobObj? then Ok(st[d].blob) else Err(MissingBlob)
  }

  /** `readCommitObject`, with the same two failure causes. */
  function GetCommit(st: Objects, d: Digest): (r: Result<Commit, string>)
    ensures r.Ok? <==> d in st && st[d].CommitObj?
    ensures r.Ok? ==> r.value == st[d].commit
    ensures r.Err? ==> r.error == MissingCommit
  {
    if d in st && st[d].CommitObj? then Ok(st[d].commit) else Err(MissingCommit)
  }

  /** What was put is what is read back, and a second put of the same digest is refused. */
  lemma PutGetRoundTrip(st: Objects, o: Obj)
    requires Put(st, o).Ok?
    ensures o.BlobObj? ==> GetBlob(Put(st, o).value, ObjSha(o)) == Ok(o.blob)
    ensures o.CommitObj? ==> GetCommit(Put(st, o).value, ObjSha(o)) == Ok(o.commit)
    ensures forall o' :: ObjSha(o') == ObjSha(o) ==> Put(Put(st, o).value, o') == Err(ObjectExists)
  {
  }

  /** The digests of a sequence of blobs. */
  function Ids(blobs: seq<Blob>): (r: set<Digest>)
    ensures forall b :: b in blobs ==> b.Id() in r
    ensures forall d :: d in r ==> exists b :: b in blobs && b.Id() == d
  {
    if blobs == [] then {} else {blobs[0].Id()} + Ids(blobs[1..])
  }

  /** Only blob digests come out of a sequence of blobs. */
  lemma IdsAreBlobDigests(blobs: seq<Blob>, d: Digest)
    ensures d in Ids(blobs) ==> d.BlobHash?
  {
  }

  /** The first blob of the sequence with digest `d`: the one whose file name the store keeps. */
  function FirstWithId(blobs: seq<Blob>, d: Digest): (r: Option<Blob>)
    ensures r.Some? <==> d in Ids(blobs)
    ensures r.Some? ==> r.value in blobs && r.value.Id() == d
  {
    if blobs == [] then None
    else if blobs[0].Id() == d then Some(blobs[0])
    else FirstWithId(blobs[1..], d)
  }

  /**
   * Writes each blob in turn, ignoring "Object exists!" as the commit command
   * does; a digest already present keeps its object, and among new blobs of
   * equal content the first one written is kept.
   */
  function PutBlobs(st: Objects, blobs: seq<Blob>): (r: Objects)
    ensures r.Keys == st.Keys + Ids(blobs)
    ensures forall d :: d in st ==> r[d] == st[d]
    ensures forall d :: d in r && d !in st ==> r[d] == BlobObj(FirstWithId(blobs, d).value)
    ensures KeyedByDigest(st) ==> KeyedByDigest(r)
    decreases |blobs|
  {
    if blobs == [] then st
    else
      var next := Put(st, BlobObj(blobs[0]));
      var st' := if next.Ok? then next.value else st;
      PutBlobs(st', blobs[1..])
  }
}
