/** Blobs: the content of one working file at the moment it was staged. */
module Blobs {
  import opened Wrappers
  import opened Digests

  const FileMissing: string := "File does not exist."

  /**
   * A blob remembers the file name it was read from and its bytes. Its
   * digest covers the byte length and the bytes only, not the name.
   */
  datatype Blob = Blob(filename: Path, data: Bytes) {
    /** A blob's digest is never the zero digest of a staging record, nor any commit's digest. */
    function Id(): (d: Digest)
      ensures d != Zero && !d.CommitHash?
    {
      BlobHash(|data|, data)
    }
  }

  /** `Blob.equals`: a null argument is never equal; otherwise digests are compared. */
  function Equals(b: Blob, other: Option<Blob>): (r: bool)
    ensures other.None? ==> !r
    ensures other.Some? ==> (r <==> other.value.data == b.data)
  {
    other.Some? && b.Id() == other.value.Id()
  }

  /** The `Blob(filename)` constructor: reads the working file, failing when it is absent. */
  function NewBlob(wd: map<Path, Bytes>, filename: Path): (r: Result<Blob, string>)
    ensures r.Ok? <==> filename in wd
    ensures r.Ok? ==> r.value.filename == filename && r.value.data == wd[filename]
    ensures r.Err? ==> r.error == FileMissing
  {
    if filename in wd then Ok(Blob(filename, wd[filename])) else Err(FileMissing)
  }

  /** Blobs of equal bytes read from different files are equal: the file name is not part of the identity. */
  lemma SameBytesSameBlob(wd: map<Path, Bytes>, f: Path, g: Path)
    requires f in wd && g in wd && wd[f] == wd[g]
    ensures NewBlob(wd, f).Ok? && NewBlob(wd, g).Ok?
    ensures Equals(NewBlob(wd, f).value, Some(NewBlob(wd, g).value))
    ensures NewBlob(wd, f).value.Id() == NewBlob(wd, g).value.Id()
  {
  }
}
