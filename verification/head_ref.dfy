/** The HEAD file: it holds `refs/heads/<branch>` for the current branch. */
module HeadRef {

  const RefsHeads: string := "refs/heads/"

  /** `updateRootHead`: the text written to HEAD. */
  function HeadText(branch: string): (r: string)
    ensures |r| == |RefsHeads| + |branch|
    ensures r[|r| - |branch|..] == branch && r[|r| - |branch| - 1] == '/'
  {
    RefsHeads + branch
  }

  /** `String.lastIndexOf(c)`: the last position holding `c`, or -1. */
  function LastIndexOf(s: string, c: char): (r: int)
    ensures -1 <= r < |s|
    ensures r == -1 ==> c !in s
    ensures r >= 0 ==> s[r] == c && c !in s[r + 1..]
  {
    if s == [] then -1
    else if s[|s| - 1] == c then |s| - 1
    else
      var k := LastIndexOf(s[..|s| - 1], c);
      assert s[k + 1..] == s[..|s| - 1][k + 1..] + [s[|s| - 1]];
      k
  }

  /** `getCurrentBranch`: the text after the last '/'. */
  function CurrentBranch(head: string): (r: string)
    ensures '/' !in r
    ensures |r| <= |head| && r == head[|head| - |r|..]
    ensures |r| == |head| || head[|head| - |r| - 1] == '/'
  {
    head[LastIndexOf(head, '/') + 1..]
  }

  /** For a branch name without '/', reading HEAD back yields the name written. */
  lemma {:induction false} HeadRoundTrip(branch: string)
    requires '/' !in branch
    ensures CurrentBranch(HeadText(branch)) == branch
  {
    var h := HeadText(branch);
    var k := LastIndexOf(h, '/');
    assert h[|RefsHeads| - 1] == '/';
    assert k >= |RefsHeads| - 1;
    assert h[|RefsHeads|..] == branch;
    assert h[k + 1..] == branch;
  }

  /** A name with '/' does not come back: only its last segment does. */
  lemma SlashedNameIsTruncated()
    ensures CurrentBranch(HeadText("a/b")) == "b"
  {
    assert HeadText("a/b") == "refs/heads/a/b";
    assert LastIndexOf("refs/heads/a/b", '/') == 12;
  }
}
