/**
 * The three-way classification merge applies to every path present at the
 * split point, given the blob digests at the split point, in the target
 * branch and in the current branch ("ours"; absent = untracked there).
 */
module MergeStatus {
  import opened Wrappers
  import opened Digests

  /**
   * `getMergeStatus(split, target, ours)`, branch for branch. It is total:
   * every combination gets one of 1, 2, 3, 6, 7, 8, never the fallback 0,
   * and no absent digest is ever compared.
   */
  function Status(split: Digest, target: Option<Digest>, ours: Option<Digest>): (r: int)
    ensures r in {1, 2, 3, 6, 7, 8}
    ensures r == Reference(split, target, ours)
  {
    if target.None? && ours.None? then 3
    else if target.None? && ours.value == split then 6
    else if ours.None? && target.value == split then 7
    else if target.Some? && ours.Some? && target.value == ours.value then 3
    else if ours.None? && target.Some? && target.value != split then 8
    else if target.None? && ours.Some? && ours.value != split then 8
    else if ours.value == split && target.value != split then 1
    else if ours.value != split && target.value == split then 2
    else if target.Some? && ours.Some? && target.value != ours.value then 8
    else 0
  }

  /**
   * The classification derived from first principles: both sides agree (3),
   * only the target changed (1 when modified, 6 when deleted), only the
   * current side changed (2 when modified, 7 when deleted), or both changed
   * differently (8).
   */
  function Reference(split: Digest, target: Option<Digest>, ours: Option<Digest>): int {
    var targetChanged := target != Some(split);
    var oursChanged := ours != Some(split);
    if target == ours then 3
    else if !oursChanged then (if target.Some? then 1 else 6)
    else if !targetChanged then (if ours.Some? then 2 else 7)
    else 8
  }

  /** The expected codes the repository's own tests record, with digests 1, 2, 3 standing for "1", "2", "3". */
  lemma StatusExamples(s: Digest, two: Digest, three: Digest)
    requires s != two && s != three && two != three
    ensures Status(s, Some(two), Some(three)) == 8
    ensures Status(s, None, None) == 3
    ensures Status(s, Some(two), Some(two)) == 3
    ensures Status(s, Some(two), Some(s)) == 1
    ensures Status(s, Some(s), Some(three)) == 2
    ensures Status(s, None, Some(s)) == 6
    ensures Status(s, Some(s), None) == 7
    ensures Status(s, Some(two), None) == 8
    ensures Status(s, None, Some(three)) == 8
  {
  }

  /** Status 8 with the current side absent: the target modified a path the current branch deleted. */
  lemma ConflictWithCurrentAbsent(split: Digest, target: Option<Digest>)
    ensures Status(split, target, None) == 8 <==> target.Some? && target.value != split
  {
  }
}
