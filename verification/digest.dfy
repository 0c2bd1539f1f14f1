/**
 * Object identity. The repository names every blob and commit by a SHA-1
 * digest and assumes digests never collide. The model keeps the digest
 * abstract: each constructor below is one way of hashing, and because
 * datatype constructors are injective and pairwise distinct, two digests are
 * equal exactly when they were computed from equal inputs.
 */
module Digests {

  newtype Byte = b: int | 0 <= b < 256

  type Bytes = seq<Byte>

  /** A file name in the (flat) working directory. */
  type Path = string

  datatype Digest =
    /** The forty-zero string used for "no parent" and for a staged record. */
    | Zero
    /** Digest of a blob: the serialized byte length followed by the bytes. */
    | BlobHash(len: nat, data: Bytes)
    /** Digest of a commit: its tracked mapping, parent digest, message and timestamp. */
    | CommitHash(tree: map<Path, Digest>, parent: Digest, message: string, time: int)
}
