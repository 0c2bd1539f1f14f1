/** Where an object lives: `objects/<first two digest characters>/<the rest>`. */
module ObjectPath {
  import opened Wrappers

  /** `substring(0, 2)` on a shorter text throws. */
  const ShortDigest: string := "String index out of range"

  /** The directory and file name an object digest is written under. */
  function Split(sha: string): (r: Result<(string, string), string>)
    ensures r.Ok? <==> |sha| >= 2
    ensures r.Ok? ==> |r.value.0| == 2 && r.value.0 + r.value.1 == sha
  {
    if |sha| < 2 then Err(ShortDigest) else Ok((sha[..2], sha[2..]))
  }

  /** Distinct digests never share an object file, so write-once per file is write-once per digest. */
  lemma {:induction false} SplitInjective(a: string, b: string)
    requires Split(a).Ok? && Split(b).Ok? && Split(a) == Split(b)
    ensures a == b
  {
    assert a == Split(a).value.0 + Split(a).value.1;
  }
}
