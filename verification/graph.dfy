/**
 * The commit graph: every commit names its parent and, for a merge commit,
 * its merge parent. Ancestor sets are collected depth-first and the common
 * ancestor of two heads is searched breadth-first.
 */
module Graph {
  import opened Wrappers
  import opened Digests

  /** Raised when a commit has a merge parent but no parent, or the search runs dry. */
  const AssertionFailed: string := "Shouldn't happen"
  /** A digest the graph does not resolve. The source follows the parent objects held inside each commit and has no such
      failure; in a consistent repository every parent is a stored commit and the walks never meet one. */
  const Dangling: string := "Object file referred by commit ref doesn't exist!"

  datatype Edge = Edge(parent: Option<Digest>, mergeParent: Option<Digest>)

  type Links = map<Digest, Edge>

  /** Only a commit with a parent may have a merge parent. */
  predicate WellLinked(e: Edge) {
    e.parent.None? ==> e.mergeParent.None?
  }

  /** `S` is closed: its members are well-linked commits whose parents are members too. */
  ghost predicate Closed(g: Links, S: set<Digest>) {
    forall v :: v in S ==>
      && v in g
      && WellLinked(g[v])
      && (g[v].parent.Some? ==> g[v].parent.value in S)
      && (g[v].mergeParent.Some? ==> g[v].mergeParent.value in S)
  }

  /** `x` is an ancestor of `head` (or `head` itself): it lies in every closed set containing `head`. */
  ghost predicate IsAncestor(g: Links, x: Digest, head: Digest) {
    forall S :: Closed(g, S) && head in S ==> x in S
  }

  /** Some closed set contains `head`: its whole history is well linked. */
  ghost predicate HasHistory(g: Links, head: Digest) {
    exists S :: Closed(g, S) && head in S
  }

  /** Every digest the graph mentions. */
  function Mentioned(g: Links): set<Digest> {
    g.Keys
      + (set v | v in g && g[v].parent.Some? :: g[v].parent.value)
      + (set v | v in g && g[v].mergeParent.Some? :: g[v].mergeParent.value)
  }

  /** A commit that every closed set containing `head` must hold cannot be badly linked or missing. */
  lemma NoHistoryThrough(g: Links, head: Digest, v: Digest)
    requires v !in g || !WellLinked(g[v])
    requires forall S :: Closed(g, S) && head in S ==> v in S
    ensures !HasHistory(g, head)
  {
  }

  /**
   * `getAllAncestors`: a depth-first walk with a visited set. It succeeds
   * exactly when the history of `head` is well linked, and then returns the
   * least closed set containing `head`.
   */
  method AllAncestors(g: Links, head: Digest) returns (r: Result<set<Digest>, string>)
    ensures r.Ok? ==> head in r.value && Closed(g, r.value)
    ensures r.Ok? ==> forall x :: x in r.value ==> IsAncestor(g, x, head)
    ensures r.Err? ==> !HasHistory(g, head)
  {
    var stack := [head];
    var visited: set<Digest> := {};
    while stack != []
      invariant visited <= g.Keys
      invariant head in visited || head in stack
      invariant forall v :: v in visited ==>
                  && WellLinked(g[v])
                  && (g[v].parent.Some? ==> g[v].parent.value in visited || g[v].parent.value in stack)
                  && (g[v].mergeParent.Some? ==> g[v].mergeParent.value in visited || g[v].mergeParent.value in stack)
      invariant forall S :: Closed(g, S) && head in S ==> visited <= S && forall i :: 0 <= i < |stack| ==> stack[i] in S
      decreases g.Keys - visited, |stack|
    {
      var current := stack[|stack| - 1];
      stack := stack[..|stack| - 1];
      if current !in visited {
        if current !in g {
          NoHistoryThrough(g, head, current);
          return Err(Dangling);
        }
        visited := visited + {current};
        var e := g[current];
        if e.parent.None? {
          if e.mergeParent.Some? {
            NoHistoryThrough(g, head, current);
            return Err(AssertionFailed);
          }
        } else if e.mergeParent.None? {
          stack := stack + [e.parent.value];
        } else {
          stack := stack + [e.parent.value] + [e.mergeParent.value];
        }
      }
    }
    return Ok(visited);
  }

  /** A closed set holding `head` holds every ancestor of `head`. */
  lemma AncestorsInClosed(g: Links, head: Digest, S: set<Digest>)
    requires Closed(g, S) && head in S
    ensures forall x :: IsAncestor(g, x, head) ==> x in S
  {
  }

  /** Queues `d` unless it is absent or already visited. */
  function Enqueue(queue: seq<Digest>, visited: set<Digest>, d: Option<Digest>): (seq<Digest>, set<Digest>) {
    if d.Some? && d.value !in visited then (queue + [d.value], visited + {d.value}) else (queue, visited)
  }

  /** Taking the head off the queue and enqueuing its unvisited parents. */
  function Expand(queue: seq<Digest>, visited: set<Digest>, e: Edge): (seq<Digest>, set<Digest>)
    requires queue != []
  {
    var (q1, v1) := Enqueue(queue[1..], visited, e.parent);
    Enqueue(q1, v1, e.mergeParent)
  }

  /**
   * What the breadth-first walk keeps: every visited commit is done or
   * queued, no done commit is in `theirs`, the done commits are well linked
   * with visited parents, and every closed set holding `ours` holds all that
   * was visited.
   */
  ghost predicate BfsInv(g: Links, ours: Digest, theirs: set<Digest>, queue: seq<Digest>, visited: set<Digest>, done: set<Digest>) {
    && ours in visited
    && visited <= Mentioned(g) + {ours}
    && (forall i :: 0 <= i < |queue| ==> queue[i] in visited)
    && (forall v :: v in visited ==> v in done || v in queue)
    && done <= visited && done !! theirs
    && (ours !in done ==> queue == [ours])
    && (forall v :: v in done ==>
          && v in g && WellLinked(g[v])
          && (g[v].parent.Some? ==> g[v].parent.value in visited)
          && (g[v].mergeParent.Some? ==> g[v].mergeParent.value in visited))
    && (forall S :: Closed(g, S) && ours in S ==> visited <= S)
  }

  /** Taking the head off the queue: every visited commit but the head is done or still queued. */
  lemma Dequeued(queue: seq<Digest>, visited: set<Digest>, done: set<Digest>)
    requires queue != [] && forall v :: v in visited ==> v in done || v in queue
    ensures forall v :: v in visited && v != queue[0] ==> v in done || v in queue[1..]
  {
    forall v | v in visited && v != queue[0] && v !in done ensures v in queue[1..] {
      var i :| 0 <= i < |queue| && queue[i] == v;
      assert queue[1..][i - 1] == v;
    }
  }

  /** Expanding the head of the queue keeps the walk's invariant and makes progress. */
  lemma BfsAdvance(g: Links, ours: Digest, theirs: set<Digest>, queue: seq<Digest>, visited: set<Digest>, done: set<Digest>)
    requires BfsInv(g, ours, theirs, queue, visited, done)
    requires queue != [] && queue[0] !in theirs && queue[0] in g && WellLinked(g[queue[0]])
    ensures var e := g[queue[0]];
            var (q1, v1) := Enqueue(queue[1..], visited, e.parent);
            var (q2, v2) := Enqueue(q1, v1, e.mergeParent);
            && BfsInv(g, ours, theirs, q2, v2, done + {queue[0]})
            && visited <= v2 && (v2 == visited ==> |q2| < |queue|)
  {
    var c := queue[0];
    var e := g[c];
    var (q1, v1) := Enqueue(queue[1..], visited, e.parent);
    var (q2, v2) := Enqueue(q1, v1, e.mergeParent);
    assert e.parent.Some? ==> e.parent.value in Mentioned(g);
    assert e.mergeParent.Some? ==> e.mergeParent.value in Mentioned(g);
    ExpandClosed(g, ours, queue, visited);
    ExpandCovered(queue, visited, done, e);
    assert ours in done + {c} by {
      if ours !in done {
        assert queue == [ours];
      }
    }
  }

  /** Every closed set holding `ours` still holds the visited commits after the head's parents join them. */
  lemma ExpandClosed(g: Links, ours: Digest, queue: seq<Digest>, visited: set<Digest>)
    requires queue != [] && queue[0] in g && queue[0] in visited
    requires forall S :: Closed(g, S) && ours in S ==> visited <= S
    ensures var e := g[queue[0]];
            var (q1, v1) := Enqueue(queue[1..], visited, e.parent);
            var (q2, v2) := Enqueue(q1, v1, e.mergeParent);
            forall S :: Closed(g, S) && ours in S ==> v2 <= S
  {
    var c := queue[0];
    var e := g[c];
    var (q1, v1) := Enqueue(queue[1..], visited, e.parent);
    var (q2, v2) := Enqueue(q1, v1, e.mergeParent);
    forall S | Closed(g, S) && ours in S ensures v2 <= S {
      assert c in S;
    }
  }

  /** After the expansion every visited commit is done, the old head, or queued; the queue stays visited; the walk progresses. */
  lemma ExpandCovered(queue: seq<Digest>, visited: set<Digest>, done: set<Digest>, e: Edge)
    requires queue != []
    requires forall i :: 0 <= i < |queue| ==> queue[i] in visited
    requires forall v :: v in visited ==> v in done || v in queue
    ensures var (q1, v1) := Enqueue(queue[1..], visited, e.parent);
            var (q2, v2) := Enqueue(q1, v1, e.mergeParent);
            && (forall v :: v in v2 ==> v in done + {queue[0]} || v in q2)
            && (forall i :: 0 <= i < |q2| ==> q2[i] in v2)
            && visited <= v2 && (v2 == visited ==> |q2| < |queue|)
  {
    var (q1, v1) := Enqueue(queue[1..], visited, e.parent);
    var (q2, v2) := Enqueue(q1, v1, e.mergeParent);
    Dequeued(queue, visited, done);
    forall v | v in v2 ensures v in done + {queue[0]} || v in q2 {
    }
  }

  /** `x` is the parent or the merge parent of `y`. */
  predicate ParentOf(g: Links, y: Digest, x: Digest) {
    y in g && (g[y].parent == Some(x) || g[y].mergeParent == Some(x))
  }

  /** `p` walks from `ours` to `x`, each step from a commit to its parent or merge parent. */
  ghost predicate IsPath(g: Links, p: seq<Digest>, ours: Digest, x: Digest) {
    && |p| >= 1 && p[0] == ours && p[|p| - 1] == x
    && forall i :: 0 <= i < |p| - 1 ==> ParentOf(g, p[i], p[i + 1])
  }

  /** `x` is reachable from `ours` in at most `k` parent or merge-parent steps. */
  ghost predicate Within(g: Links, x: Digest, ours: Digest, k: nat) {
    exists p :: IsPath(g, p, ours, x) && |p| <= k + 1
  }

  /** `x` is exactly `l` steps from `ours`: within `l` steps and not within fewer. */
  ghost predicate Exact(g: Links, x: Digest, ours: Digest, l: nat) {
    Within(g, x, ours, l) && (l > 0 ==> !Within(g, x, ours, l - 1))
  }

  lemma WithinMono(g: Links, x: Digest, ours: Digest, k: nat, k': nat)
    requires Within(g, x, ours, k) && k <= k'
    ensures Within(g, x, ours, k')
  {
    var p :| IsPath(g, p, ours, x) && |p| <= k + 1;
    assert IsPath(g, p, ours, x) && |p| <= k' + 1;
  }

  /** A commit exactly `l` steps away is within no fewer than `l` steps. */
  lemma ExactLeast(g: Links, x: Digest, ours: Digest, l: nat, k: nat)
    requires Exact(g, x, ours, l) && Within(g, x, ours, k)
    ensures l <= k
  {
  }

  /** One more step reaches a parent of a reached commit. */
  lemma ParentReached(g: Links, ours: Digest, c: Digest, x: Digest, k: nat)
    requires Within(g, c, ours, k) && ParentOf(g, c, x)
    ensures Within(g, x, ours, k + 1)
  {
    var p :| IsPath(g, p, ours, c) && |p| <= k + 1;
    var q := p + [x];
    assert forall i :: 0 <= i < |q| - 1 ==> q[i] == p[i];
    assert IsPath(g, q, ours, x);
  }

  /** The last step of a path of more than one commit: `x` is a parent of a commit one step nearer. */
  lemma LastStep(g: Links, ours: Digest, x: Digest, k: nat) returns (y: Digest)
    requires Within(g, x, ours, k) && x != ours
    ensures k >= 1 && Within(g, y, ours, k - 1) && ParentOf(g, y, x)
  {
    var p :| IsPath(g, p, ours, x) && |p| <= k + 1;
    var q := p[..|p| - 1];
    y := q[|q| - 1];
    assert IsPath(g, q, ours, y);
  }

  /** Appends `l` until the sequence has length `n`. */
  function Pad(levels: seq<nat>, n: nat, l: nat): (r: seq<nat>)
    ensures |r| == if |levels| >= n then |levels| else n
    ensures forall j :: 0 <= j < |levels| ==> r[j] == levels[j]
    ensures forall j :: |levels| <= j < |r| ==> r[j] == l
    decreases n - |levels|
  {
    if |levels| >= n then levels else Pad(levels + [l], n, l)
  }

  /**
   * The queue is in breadth-first order: `levels` gives each queued commit's
   * exact distance from `ours`, the distances never decrease along the
   * queue, and they span at most two consecutive values.
   */
  ghost predicate Levelled(g: Links, ours: Digest, queue: seq<Digest>, levels: seq<nat>) {
    && |levels| == |queue|
    && (forall j :: 0 <= j < |queue| ==> Exact(g, queue[j], ours, levels[j]))
    && (forall i, j :: 0 <= i <= j < |levels| ==> levels[i] <= levels[j])
    && (forall j :: 0 <= j < |levels| ==> levels[j] <= levels[0] + 1)
  }

  /** The part of `BfsInv` the distance argument needs. */
  ghost predicate Frontier(g: Links, ours: Digest, queue: seq<Digest>, visited: set<Digest>, done: set<Digest>) {
    && ours in visited
    && (ours !in done ==> queue == [ours])
    && (forall v :: v in visited ==> v in done || v in queue)
    && (forall v :: v in done ==>
          && v in g
          && (g[v].parent.Some? ==> g[v].parent.value in visited)
          && (g[v].mergeParent.Some? ==> g[v].mergeParent.value in visited))
  }

  lemma BfsFrontier(g: Links, ours: Digest, theirs: set<Digest>, queue: seq<Digest>, visited: set<Digest>, done: set<Digest>)
    requires BfsInv(g, ours, theirs, queue, visited, done)
    ensures Frontier(g, ours, queue, visited, done)
  {
  }

  /** No commit the walk has not finished is nearer to `ours` than the head of the queue. */
  lemma {:induction false} NotDoneFar(g: Links, ours: Digest, queue: seq<Digest>, levels: seq<nat>,
                                      visited: set<Digest>, done: set<Digest>, x: Digest, k: nat)
    requires Frontier(g, ours, queue, visited, done) && Levelled(g, ours, queue, levels) && queue != []
    requires Within(g, x, ours, k) && x !in done
    ensures Within(g, queue[0], ours, k)
    decreases k
  {
    if x == ours {
      assert queue == [ours];
      assert IsPath(g, [ours], ours, ours);
    } else {
      var y := LastStep(g, ours, x, k);
      if y in done {
        var j :| 0 <= j < |queue| && queue[j] == x;
        ExactLeast(g, x, ours, levels[j], k);
        WithinMono(g, queue[0], ours, levels[0], k);
      } else {
        NotDoneFar(g, ours, queue, levels, visited, done, y, k - 1);
        WithinMono(g, queue[0], ours, k - 1, k);
      }
    }
  }

  /** A commit the walk has not yet seen is strictly farther from `ours` than the head of the queue. */
  lemma UnvisitedFarther(g: Links, ours: Digest, queue: seq<Digest>, levels: seq<nat>,
                         visited: set<Digest>, done: set<Digest>, x: Digest, k: nat)
    requires Frontier(g, ours, queue, visited, done) && Levelled(g, ours, queue, levels) && queue != []
    requires Within(g, x, ours, k) && x !in visited
    ensures k >= 1 && Within(g, queue[0], ours, k - 1)
  {
    var y := LastStep(g, ours, x, k);
    NotDoneFar(g, ours, queue, levels, visited, done, y, k - 1);
  }

  /** What expanding the head of the queue appends: unvisited parents of the head, after the rest of the queue. */
  lemma EnqueuedParents(queue: seq<Digest>, visited: set<Digest>, e: Edge)
    requires queue != []
    ensures var (q1, v1) := Enqueue(queue[1..], visited, e.parent);
            var (q2, v2) := Enqueue(q1, v1, e.mergeParent);
            && |queue| - 1 <= |q2| && q2[..|queue| - 1] == queue[1..]
            && forall j :: |queue| - 1 <= j < |q2| ==>
                 q2[j] !in visited && (e.parent == Some(q2[j]) || e.mergeParent == Some(q2[j]))
  {
  }

  /** Expanding the head of the queue keeps it in breadth-first order; the new commits lie one step beyond the head. */
  lemma LevelAdvance(g: Links, ours: Digest, queue: seq<Digest>, levels: seq<nat>,
                     visited: set<Digest>, done: set<Digest>)
    requires Frontier(g, ours, queue, visited, done) && Levelled(g, ours, queue, levels)
    requires queue != [] && queue[0] in g
    ensures var e := g[queue[0]];
            var (q1, v1) := Enqueue(queue[1..], visited, e.parent);
            var (q2, v2) := Enqueue(q1, v1, e.mergeParent);
            Levelled(g, ours, q2, Pad(levels[1..], |q2|, levels[0] + 1))
  {
    var c, L := queue[0], levels[0];
    var e := g[c];
    var (q1, v1) := Enqueue(queue[1..], visited, e.parent);
    var (q2, v2) := Enqueue(q1, v1, e.mergeParent);
    var l2 := Pad(levels[1..], |q2|, L + 1);
    EnqueuedParents(queue, visited, e);
    forall j | |queue| - 1 <= j < |q2| ensures Exact(g, q2[j], ours, L + 1) {
      ParentReached(g, ours, c, q2[j], L);
      if Within(g, q2[j], ours, L) {
        UnvisitedFarther(g, ours, queue, levels, visited, done, q2[j], L);
        assert false;
      }
    }
    forall j | 0 <= j < |queue| - 1 ensures q2[j] == queue[j + 1] {
      assert q2[..|queue| - 1][j] == q2[j];
    }
    ShiftOrdered(levels, |q2|);
    LevelledShift(g, ours, queue, levels, q2, l2);
  }

  /** Dropping the head of a levelled queue and appending commits one level beyond it, with the levels
      shifted to match, keeps the queue levelled. */
  lemma LevelledShift(g: Links, ours: Digest, queue: seq<Digest>, levels: seq<nat>, q2: seq<Digest>, l2: seq<nat>)
    requires Levelled(g, ours, queue, levels) && queue != []
    requires |queue| - 1 <= |q2| == |l2|
    requires forall j :: 0 <= j < |queue| - 1 ==> q2[j] == queue[j + 1] && l2[j] == levels[j + 1]
    requires forall j :: |queue| - 1 <= j < |q2| ==> Exact(g, q2[j], ours, levels[0] + 1) && l2[j] == levels[0] + 1
    requires forall i, j :: 0 <= i <= j < |l2| ==> l2[i] <= l2[j]
    requires forall j :: 0 <= j < |l2| ==> l2[j] <= l2[0] + 1
    ensures Levelled(g, ours, q2, l2)
  {
    forall j | 0 <= j < |q2| ensures Exact(g, q2[j], ours, l2[j]) {
      if j < |queue| - 1 {
        assert Exact(g, queue[j + 1], ours, levels[j + 1]);
      }
    }
  }

  /** The levels after a shift: the old ones moved down, then the next level; still ordered and spanning two values. */
  lemma ShiftOrdered(levels: seq<nat>, n: nat)
    requires levels != [] && |levels| - 1 <= n
    requires forall i, j :: 0 <= i <= j < |levels| ==> levels[i] <= levels[j]
    requires forall j :: 0 <= j < |levels| ==> levels[j] <= levels[0] + 1
    ensures var l2 := Pad(levels[1..], n, levels[0] + 1);
            && |l2| == n
            && (forall j :: 0 <= j < n ==> l2[j] == if j < |levels| - 1 then levels[j + 1] else levels[0] + 1)
            && (forall i, j :: 0 <= i <= j < n ==> l2[i] <= l2[j])
            && (forall j :: 0 <= j < n ==> l2[j] <= l2[0] + 1)
  {
    var L := levels[0];
    var l2 := Pad(levels[1..], n, L + 1);
    forall j | 0 <= j < n ensures l2[j] == if j < |levels| - 1 then levels[j + 1] else L + 1 {
      if j < |levels| - 1 {
        assert l2[j] == levels[1..][j];
      }
    }
    forall i, j | 0 <= i <= j < n ensures l2[i] <= l2[j] {
      if j < |levels| - 1 {
        assert levels[i + 1] <= levels[j + 1];
      } else if i < |levels| - 1 {
        assert levels[i + 1] <= L + 1;
      }
    }
    forall j | 0 <= j < n ensures l2[j] <= l2[0] + 1 {
      if j < |levels| - 1 {
        assert levels[1] <= levels[j + 1] <= L + 1 && L <= levels[1];
      }
    }
  }

  /** An empty queue means the visited commits are closed and hold no member of `theirs`, so none is an ancestor of `ours`. */
  lemma WalkExhausted(g: Links, ours: Digest, theirs: set<Digest>, visited: set<Digest>, done: set<Digest>)
    requires BfsInv(g, ours, theirs, [], visited, done)
    ensures HasHistory(g, ours)
    ensures forall x :: x in theirs ==> !IsAncestor(g, x, ours)
  {
    assert Closed(g, visited);
  }

  /** Expanding the head of the queue keeps both the walk's invariant and the levels of the queue. */
  lemma WalkStep(g: Links, ours: Digest, theirs: set<Digest>, queue: seq<Digest>, levels: seq<nat>,
                 visited: set<Digest>, done: set<Digest>)
    requires BfsInv(g, ours, theirs, queue, visited, done) && Levelled(g, ours, queue, levels)
    requires queue != [] && queue[0] !in theirs && queue[0] in g && WellLinked(g[queue[0]])
    ensures var (q2, v2) := Expand(queue, visited, g[queue[0]]);
            var all := Mentioned(g) + {ours};
            && BfsInv(g, ours, theirs, q2, v2, done + {queue[0]})
            && Levelled(g, ours, q2, Pad(levels[1..], |q2|, levels[0] + 1))
            && (all - v2 < all - visited || (all - v2 == all - visited && |q2| < |queue|))
  {
    BfsAdvance(g, ours, theirs, queue, visited, done);
    BfsFrontier(g, ours, theirs, queue, visited, done);
    LevelAdvance(g, ours, queue, levels, visited, done);
  }

  /** The head of the queue, once it is in `theirs`, is an ancestor of `ours` and as near to it as any member of `theirs`. */
  lemma FoundNearest(g: Links, ours: Digest, theirs: set<Digest>, queue: seq<Digest>, levels: seq<nat>,
                     visited: set<Digest>, done: set<Digest>)
    requires BfsInv(g, ours, theirs, queue, visited, done) && Levelled(g, ours, queue, levels)
    requires queue != [] && queue[0] in theirs
    ensures IsAncestor(g, queue[0], ours)
    ensures forall x, k: nat :: x in theirs && Within(g, x, ours, k) ==> Within(g, queue[0], ours, k)
  {
    assert queue[0] in visited;
    BfsFrontier(g, ours, theirs, queue, visited, done);
    forall x, k: nat | x in theirs && Within(g, x, ours, k) ensures Within(g, queue[0], ours, k) {
      NotDoneFar(g, ours, queue, levels, visited, done, x, k);
    }
  }

  /**
   * `getCommonAncestor`: a breadth-first walk from `ours` that returns the
   * first commit found in `theirs`, the ancestor set of the other head.
   * That commit is a nearest one: no member of `theirs` is fewer steps
   * from `ours`.
   */
  /** Our head is not in `theirs` but its first parent is: the walk's first expansion queues that parent ahead of the merge parent. */
  predicate FirstParentIn(g: Links, ours: Digest, theirs: set<Digest>) {
    ours !in theirs && ours in g && g[ours].parent.Some? && g[ours].parent.value in theirs
  }

  lemma FirstExpansion(g: Links, ours: Digest, theirs: set<Digest>, visited: set<Digest>)
    requires FirstParentIn(g, ours, theirs) && visited == {ours}
    ensures var next := Expand([ours], visited, g[ours]); next.0 != [] && next.0[0] == g[ours].parent.value
  {
  }

  method CommonAncestor(g: Links, ours: Digest, theirs: set<Digest>) returns (r: Result<Digest, string>)
    ensures r.Ok? ==> r.value in theirs && IsAncestor(g, r.value, ours)
    ensures r.Ok? ==> forall x, k: nat :: x in theirs && Within(g, x, ours, k) ==> Within(g, r.value, ours, k)
    ensures ours in theirs ==> r == Ok(ours)
    ensures FirstParentIn(g, ours, theirs) ==> r == Ok(g[ours].parent.value)
    ensures r.Err? ==> !HasHistory(g, ours) || forall x :: x in theirs ==> !IsAncestor(g, x, ours)
  {
    var queue := [ours];
    var visited := {ours};
    ghost var done: set<Digest> := {};
    ghost var levels: seq<nat> := [0];
    ghost var first := true;
    while queue != []
      invariant BfsInv(g, ours, theirs, queue, visited, done)
      invariant Levelled(g, ours, queue, levels)
      invariant FirstParentIn(g, ours, theirs) ==>
                  if first then queue == [ours] && visited == {ours}
                  else queue != [] && queue[0] == g[ours].parent.value
      decreases (Mentioned(g) + {ours}) - visited, |queue|
    {
      var current := queue[0];
      if current in theirs {
        FoundNearest(g, ours, theirs, queue, levels, visited, done);
        return Ok(current);
      }
      if current !in g {
        NoHistoryThrough(g, ours, current);
        return Err(Dangling);
      }
      var e := g[current];
      if e.parent.None? && e.mergeParent.Some? {
        NoHistoryThrough(g, ours, current);
        return Err(AssertionFailed);
      }
      WalkStep(g, ours, theirs, queue, levels, visited, done);
      if FirstParentIn(g, ours, theirs) {
        FirstExpansion(g, ours, theirs, visited);
      }
      done, first := done + {current}, false;
      var next := Expand(queue, visited, e);
      levels := Pad(levels[1..], |next.0|, levels[0] + 1);
      queue, visited := next.0, next.1;
    }
    WalkExhausted(g, ours, theirs, visited, done);
    return Err(AssertionFailed);
  }

  /**
   * `getCommonAncestor` as a whole: the ancestor set of `tip`, then the
   * breadth-first walk from `ours`. The result is a common ancestor no
   * farther from `ours` than any other; it is `ours` itself whenever `ours`
   * is an ancestor of `tip`.
   */
  method CommonAncestorOf(g: Links, ours: Digest, tip: Digest) returns (r: Result<Digest, string>)
    ensures r.Ok? ==> r.value in g && IsAncestor(g, r.value, ours) && IsAncestor(g, r.value, tip)
    ensures r.Ok? ==> forall x, k: nat :: IsAncestor(g, x, tip) && Within(g, x, ours, k) ==> Within(g, r.value, ours, k)
    ensures HasHistory(g, tip) && IsAncestor(g, ours, tip) ==> r == Ok(ours)
    ensures (&& HasHistory(g, tip) && !IsAncestor(g, ours, tip) && ours in g && g[ours].parent.Some?
             && IsAncestor(g, g[ours].parent.value, tip)) ==> r == Ok(g[ours].parent.value)
    ensures r.Err? ==> !HasHistory(g, tip) || !HasHistory(g, ours) || forall x :: IsAncestor(g, x, tip) ==> !IsAncestor(g, x, ours)
  {
    var theirs := AllAncestors(g, tip);
    if theirs.Err? {
      return Err(theirs.error);
    }
    AncestorsInClosed(g, tip, theirs.value);
    r := CommonAncestor(g, ours, theirs.value);
  }

  /**
   * On the chain `a <- b <- c` both `a` and `b` are ancestors of `c`, but
   * only `b` is one step away: a walk from `c` with `theirs` holding both
   * must return `b`.
   */
  lemma ChainNearest()
    ensures var a, b, c := CommitHash(map[], Zero, "a", 0), CommitHash(map[], Zero, "b", 1), CommitHash(map[], Zero, "c", 2);
            var g := map[a := Edge(None, None), b := Edge(Some(a), None), c := Edge(Some(b), None)];
            Within(g, b, c, 1) && Within(g, a, c, 2) && !Within(g, a, c, 1)
  {
    var a, b, c := CommitHash(map[], Zero, "a", 0), CommitHash(map[], Zero, "b", 1), CommitHash(map[], Zero, "c", 2);
    var g := map[a := Edge(None, None), b := Edge(Some(a), None), c := Edge(Some(b), None)];
    assert IsPath(g, [c, b], c, b);
    assert IsPath(g, [c, b, a], c, a);
    forall p | IsPath(g, p, c, a) ensures |p| > 2 {
    }
  }
}
