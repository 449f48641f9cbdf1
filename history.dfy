/**
 * The breadth-first searches of Gitlet.traverse and Gitlet.findSplit over
 * the commit graph, following both the parent and the merged-parent links.
 * Commits are handled by id: the object store maps each id to the commit
 * stored under it, and Commit.equals compares ids only.
 */
module History {
  import opened Wrappers
  import opened Blobs
  import opened Commits

  /** The commits directory of the object store. */
  type Store = map<Id, Commit>

  /** Every parent link of a stored commit leads to a stored commit (loadCommit never fails). */
  ghost predicate Closed(store: Store) {
    forall k | k in store :: Parents(store[k]) <= store.Keys
  }

  /** A chain of stored commits, each one a parent of the one before it. */
  ghost predicate IsPath(store: Store, path: seq<Id>) {
    && |path| > 0
    && (forall i | 0 <= i < |path| :: path[i] in store)
    && (forall i | 0 <= i < |path| - 1 :: path[i + 1] in Parents(store[path[i]]))
  }

  /** `to` is `from` or one of its ancestors along parent and merged-parent links. */
  ghost predicate Reachable(store: Store, from: Id, to: Id) {
    exists path :: IsPath(store, path) && path[0] == from && path[|path| - 1] == to
  }

  lemma ReachableSelf(store: Store, h: Id)
    requires h in store
    ensures Reachable(store, h, h)
  {
    assert IsPath(store, [h]);
  }

  lemma ReachableParent(store: Store, h: Id, x: Id, p: Id)
    requires Reachable(store, h, x) && x in store && p in Parents(store[x]) && p in store
    ensures Reachable(store, h, p)
  {
    var path :| IsPath(store, path) && path[0] == h && path[|path| - 1] == x;
    var path' := path + [p];
    assert forall i | 0 <= i < |path'| - 1 :: path'[i + 1] in Parents(store[path'[i]]) by {
      forall i | 0 <= i < |path'| - 1 ensures path'[i + 1] in Parents(store[path'[i]]) {
        if i < |path| - 1 {
          assert path'[i] == path[i] && path'[i + 1] == path[i + 1];
        }
      }
    }
    assert IsPath(store, path');
  }

  /** Only stored commits are reachable. */
  lemma ReachableStored(store: Store, h: Id, x: Id)
    requires Reachable(store, h, x)
    ensures x in store
  {
    var path :| IsPath(store, path) && path[0] == h && path[|path| - 1] == x;
    assert path[|path| - 1] in store;
  }

  /** The ids in a visited list. */
  function Seen(vis: seq<Id>): set<Id> {
    set x | x in vis
  }

  /**
   * One turn of the while loop of traverse and findSplit: poll the queue,
   * append the commit to `visited`, then enqueue its parent and its merged
   * parent unless they are already in `visited`. The queue itself is not
   * consulted, so a commit may be queued, and visited, more than once.
   */
  function BfsStep(store: Store, q: seq<Id>, visited: seq<Id>): (seq<Id>, seq<Id>)
    requires q != [] && q[0] in store
  {
    var curr := q[0];
    var vis := visited + [curr];
    var c := store[curr];
    var q1 := q[1..] + (if c.parent.Some? && c.parent.value !in vis then [c.parent.value] else []);
    var q2 := q1 + (if c.mergedParent.Some? && c.mergedParent.value !in vis
                    then [c.mergedParent.value] else []);
    (q2, vis)
  }

  /**
   * A parent that is queued but not yet visited is queued a second time:
   * the enqueue test consults `visited` only, so a commit reached along two
   * paths can be polled, and appended to `visited`, twice.
   */
  lemma StepRequeues(store: Store, q: seq<Id>, visited: seq<Id>, p: Id)
    requires q != [] && q[0] in store && store[q[0]].parent == Some(p)
    requires p != q[0] && p !in visited && p in q[1..]
    ensures var q' := BfsStep(store, q, visited).0;
            exists i, j | 0 <= i < j < |q'| :: q'[i] == p && q'[j] == p
  {
    var q' := BfsStep(store, q, visited).0;
    var i :| 0 <= i < |q[1..]| && q[1..][i] == p;
    assert q'[i] == p;
    assert q'[|q| - 1] == p;
  }

  /**
   * The loop invariant of both searches: the queue holds stored commits,
   * and every parent of a visited commit is visited or still queued.
   */
  ghost predicate Frontier(store: Store, q: seq<Id>, vis: seq<Id>) {
    && Closed(store)
    && (forall i | 0 <= i < |q| :: q[i] in store)
    && (forall v | v in vis :: v in store)
    && (forall v, p | v in vis && p in Parents(store[v]) :: p in vis || p in q)
  }

  /** Index of the first queued commit not yet visited, or the queue length if there is none. */
  function FirstUnseen(q: seq<Id>, s: set<Id>): (r: nat)
    ensures r <= |q|
    ensures r < |q| ==> q[r] !in s
    ensures forall j | 0 <= j < r :: q[j] in s
  {
    if q == [] then 0 else if q[0] !in s then 0 else 1 + FirstUnseen(q[1..], s)
  }

  /** How many stored commits have not been visited. */
  function Unvisited(store: Store, vis: seq<Id>): nat {
    |store.Keys - Seen(vis)|
  }

  /** Each turn keeps the loop invariant. */
  lemma StepKeepsFrontier(store: Store, q: seq<Id>, vis: seq<Id>)
    requires Frontier(store, q, vis) && q != []
    ensures Frontier(store, BfsStep(store, q, vis).0, BfsStep(store, q, vis).1)
  {
    var (q', vis') := BfsStep(store, q, vis);
    var curr := q[0];
    var c := store[curr];
    assert Parents(c) <= store.Keys;
    forall i | 0 <= i < |q'| ensures q'[i] in store {
      if i >= |q| - 1 {
        assert q'[i] in Parents(c);
      } else {
        assert q'[i] == q[i + 1];
      }
    }
    forall v, p | v in vis' && p in Parents(store[v]) ensures p in vis' || p in q' {
      if p !in vis' {
        if v == curr {
          assert Some(p) == c.parent || Some(p) == c.mergedParent;
        } else {
          assert v in vis;
          assert p in q && p != curr;
          var k :| 0 <= k < |q| && q[k] == p;
          assert q'[k - 1] == p;
        }
      }
    }
  }

  /**
   * Each turn makes progress: either one more stored commit is visited, or
   * (for a commit polled a second time) the first unvisited queue entry
   * moves one place towards the front.
   */
  lemma StepProgress(store: Store, q: seq<Id>, vis: seq<Id>)
    requires Frontier(store, q, vis) && q != []
    ensures Frontier(store, BfsStep(store, q, vis).0, BfsStep(store, q, vis).1)
    ensures var (q', vis') := BfsStep(store, q, vis);
      || Unvisited(store, vis') < Unvisited(store, vis)
      || (Unvisited(store, vis') == Unvisited(store, vis)
          && FirstUnseen(q', Seen(vis')) < FirstUnseen(q, Seen(vis)))
  {
    StepKeepsFrontier(store, q, vis);
    var (q', vis') := BfsStep(store, q, vis);
    var curr := q[0];
    assert Seen(vis') == Seen(vis) + {curr};
    if curr !in Seen(vis) {
      assert curr in store.Keys - Seen(vis);
      assert store.Keys - Seen(vis') < store.Keys - Seen(vis);
    } else {
      StepRevisit(store, q, vis);
    }
  }

  /** Polling a commit that was visited before moves the first unvisited entry forward. */
  lemma StepRevisit(store: Store, q: seq<Id>, vis: seq<Id>)
    requires Frontier(store, q, vis) && q != [] && q[0] in Seen(vis)
    ensures Seen(BfsStep(store, q, vis).1) == Seen(vis)
    ensures FirstUnseen(BfsStep(store, q, vis).0, Seen(vis)) < FirstUnseen(q, Seen(vis))
  {
    var (q', vis') := BfsStep(store, q, vis);
    var curr := q[0];
    var c := store[curr];
    var s := Seen(vis);
    assert Seen(vis') == s;
    assert q'[..|q| - 1] == q[1..];
    var first := FirstUnseen(q, s);
    if first < |q| {
      assert q'[first - 1] == q[first];
    } else {
      // every queued commit is visited already, so nothing is enqueued
      forall p | p in Parents(c) ensures p in vis' {
        assert p in vis || p in q;
        if p in q {
          var k :| 0 <= k < |q| && q[k] == p;
        }
      }
      assert q' == q[1..];
    }
  }

  /**
   * The visited list with which the loop ends when started from queue `q`
   * and list `vis`.
   */
  ghost function BfsFrom(store: Store, q: seq<Id>, vis: seq<Id>): seq<Id>
    requires Frontier(store, q, vis)
    decreases Unvisited(store, vis), FirstUnseen(q, Seen(vis))
  {
    if q == [] then vis
    else
      StepProgress(store, q, vis);
      var (q', vis') := BfsStep(store, q, vis);
      BfsFrom(store, q', vis')
  }

  /** The full visiting order of a search from `head`: what traverse returns. */
  ghost function BfsOrder(store: Store, head: Id): seq<Id>
    requires Closed(store) && head in store
  {
    BfsFrom(store, [head], [])
  }

  /** Gitlet.traverse: the visited list of a breadth-first search from `head`. */
  method Traverse(store: Store, head: Id) returns (visited: seq<Id>)
    requires Closed(store) && head in store
    ensures visited == BfsOrder(store, head)
  {
    visited := [];
    var q := [head];
    while q != []
      invariant Frontier(store, q, visited)
      invariant BfsFrom(store, q, visited) == BfsOrder(store, head)
      decreases Unvisited(store, visited), FirstUnseen(q, Seen(visited))
    {
      ghost var step := BfsStep(store, q, visited);
      BfsFromUnfold(store, q, visited);
      var curr := q[0];
      q := q[1..];
      visited := visited + [curr];
      var c := store[curr];
      ghost var q1 := q + (if c.parent.Some? && c.parent.value !in visited then [c.parent.value] else []);
      if c.parent.Some? {
        var parent := c.parent.value;
        if parent !in visited {
          q := q + [parent];
        }
      }
      assert q == q1;
      if c.mergedParent.Some? {
        var mergedParent := c.mergedParent.value;
        if mergedParent !in visited {
          q := q + [mergedParent];
        }
      }
      assert q == step.0;
      assert visited == step.1;
    }
  }

  /** The first element of `s` that is in `known`, if any. */
  function FirstIn(s: seq<Id>, known: seq<Id>): (r: Option<Id>)
    ensures r.None? <==> forall i | 0 <= i < |s| :: s[i] !in known
    ensures r.Some? ==> exists k | 0 <= k < |s| :: s[k] == r.value && r.value in known
                          && forall j | 0 <= j < k :: s[j] !in known
  {
    if s == [] then None
    else if s[0] in known then Some(s[0])
    else
      var r := FirstIn(s[1..], known);
      assert forall i | 1 <= i < |s| :: s[i] == s[1..][i - 1];
      r
  }

  /**
   * Gitlet.findSplit: the search of traverse started from `head`, stopping
   * at the first visited commit that is in `known`; null when none is.
   */
  method FindSplit(store: Store, known: seq<Id>, head: Id) returns (split: Option<Id>)
    requires Closed(store) && head in store
    ensures split == FirstIn(BfsOrder(store, head), known)
  {
    var visited := [];
    var q := [head];
    while q != []
      invariant Frontier(store, q, visited)
      invariant BfsFrom(store, q, visited) == BfsOrder(store, head)
      invariant NoneKnown(visited, known)
      decreases Unvisited(store, visited), FirstUnseen(q, Seen(visited))
    {
      ghost var step := BfsStep(store, q, visited);
      BfsFromUnfold(store, q, visited);
      var curr := q[0];
      q := q[1..];
      visited := visited + [curr];
      assert step.1 == visited;
      if curr in known {
        SplitFound(store, step.0, step.1, known);
        return Some(curr);
      }
      NoneKnownAppend(step.1[..|step.1| - 1], known, curr);
      var c := store[curr];
      ghost var q1 := q + (if c.parent.Some? && c.parent.value !in visited then [c.parent.value] else []);
      if c.parent.Some? {
        var parent := c.parent.value;
        if parent !in visited {
          q := q + [parent];
        }
      }
      assert q == q1;
      if c.mergedParent.Some? {
        var mergedParent := c.mergedParent.value;
        if mergedParent !in visited {
          q := q + [mergedParent];
        }
      }
      assert q == step.0;
    }
    assert BfsFrom(store, q, visited) == visited;
    return None;
  }

  /** No element of `vis` is in `known`. */
  ghost predicate NoneKnown(vis: seq<Id>, known: seq<Id>) {
    forall i | 0 <= i < |vis| :: vis[i] !in known
  }

  lemma NoneKnownAppend(vis: seq<Id>, known: seq<Id>, x: Id)
    requires NoneKnown(vis, known) && x !in known
    ensures NoneKnown(vis + [x], known)
  {
  }

  /** A search that visits a known commit, after none before it, has found the first one. */
  lemma SplitFound(store: Store, q: seq<Id>, vis: seq<Id>, known: seq<Id>)
    requires Frontier(store, q, vis) && |vis| > 0 && vis[|vis| - 1] in known
    requires NoneKnown(vis[..|vis| - 1], known)
    ensures FirstIn(BfsFrom(store, q, vis), known) == Some(vis[|vis| - 1])
  {
    BfsFromExtends(store, q, vis);
    var r := BfsFrom(store, q, vis);
    assert forall j | 0 <= j < |vis| :: r[j] == vis[j];
    FirstInAt(r, known, |vis| - 1);
  }

  /** FirstIn picks element `k` when it is in `known` and nothing before it is. */
  lemma {:induction false} FirstInAt(s: seq<Id>, known: seq<Id>, k: nat)
    requires k < |s| && s[k] in known
    requires forall j | 0 <= j < k :: s[j] !in known
    ensures FirstIn(s, known) == Some(s[k])
  {
    if k > 0 {
      FirstInAt(s[1..], known, k - 1);
    }
  }

  /** The search only ever appends: the list it starts with is a prefix of its result. */
  lemma {:induction false} BfsFromExtends(store: Store, q: seq<Id>, vis: seq<Id>)
    requires Frontier(store, q, vis)
    ensures |vis| <= |BfsFrom(store, q, vis)| && BfsFrom(store, q, vis)[..|vis|] == vis
    ensures q != [] ==> |vis| < |BfsFrom(store, q, vis)| && BfsFrom(store, q, vis)[|vis|] == q[0]
    decreases Unvisited(store, vis), FirstUnseen(q, Seen(vis))
  {
    if q != [] {
      var step := BfsStep(store, q, vis);
      BfsFromUnfold(store, q, vis);
      BfsFromExtends(store, step.0, step.1);
      PrefixOfPrefix(BfsFrom(store, step.0, step.1), vis, q[0]);
    }
  }

  /** One turn of the loop, seen from the final result. */
  lemma BfsFromUnfold(store: Store, q: seq<Id>, vis: seq<Id>)
    requires Frontier(store, q, vis) && q != []
    ensures Frontier(store, BfsStep(store, q, vis).0, BfsStep(store, q, vis).1)
    ensures BfsStep(store, q, vis).1 == vis + [q[0]]
    ensures Unvisited(store, BfsStep(store, q, vis).1) < Unvisited(store, vis)
         || (Unvisited(store, BfsStep(store, q, vis).1) == Unvisited(store, vis)
             && FirstUnseen(BfsStep(store, q, vis).0, Seen(BfsStep(store, q, vis).1))
                < FirstUnseen(q, Seen(vis)))
    ensures BfsFrom(store, q, vis) == BfsFrom(store, BfsStep(store, q, vis).0, BfsStep(store, q, vis).1)
  {
    StepProgress(store, q, vis);
  }

  lemma PrefixOfPrefix(r: seq<Id>, vis: seq<Id>, x: Id)
    requires |vis| + 1 <= |r| && r[..|vis| + 1] == vis + [x]
    ensures r[..|vis|] == vis && r[|vis|] == x
  {
    assert r[..|vis|] == r[..|vis| + 1][..|vis|];
  }

  /** traverse(h) starts with h itself. */
  lemma TraverseStartsAtHead(store: Store, head: Id)
    requires Closed(store) && head in store
    ensures |BfsOrder(store, head)| > 0 && BfsOrder(store, head)[0] == head
  {
    BfsFromExtends(store, [head], []);
  }

  /** Every commit traverse(h) returns is h or an ancestor of h. */
  lemma TraverseSound(store: Store, head: Id)
    requires Closed(store) && head in store
    ensures forall x | x in BfsOrder(store, head) :: Reachable(store, head, x)
  {
    ReachableSelf(store, head);
    BfsFromReachable(store, [head], [], head);
  }

  lemma {:induction false} BfsFromReachable(store: Store, q: seq<Id>, vis: seq<Id>, h: Id)
    requires Frontier(store, q, vis)
    requires forall x | x in q :: Reachable(store, h, x)
    requires forall x | x in vis :: Reachable(store, h, x)
    ensures forall x | x in BfsFrom(store, q, vis) :: Reachable(store, h, x)
    decreases Unvisited(store, vis), FirstUnseen(q, Seen(vis))
  {
    if q != [] {
      var step := BfsStep(store, q, vis);
      BfsFromUnfold(store, q, vis);
      StepReachable(store, q, vis, h);
      BfsFromReachable(store, step.0, step.1, h);
    }
  }

  lemma StepReachable(store: Store, q: seq<Id>, vis: seq<Id>, h: Id)
    requires Frontier(store, q, vis) && q != []
    requires forall x | x in q :: Reachable(store, h, x)
    ensures forall x | x in BfsStep(store, q, vis).0 :: Reachable(store, h, x)
  {
    var q' := BfsStep(store, q, vis).0;
    var c := store[q[0]];
    assert Parents(c) <= store.Keys;
    forall x | x in q' ensures Reachable(store, h, x) {
      var i :| 0 <= i < |q'| && q'[i] == x;
      if i < |q| - 1 {
        assert q'[i] == q[i + 1];
      } else {
        assert x in Parents(c);
        ReachableParent(store, h, q[0], x);
      }
    }
  }

  /**
   * The result of the search contains what it started with and is closed
   * under parent and merged-parent links.
   */
  lemma {:induction false} BfsFromCloses(store: Store, q: seq<Id>, vis: seq<Id>)
    requires Frontier(store, q, vis)
    ensures Frontier(store, [], BfsFrom(store, q, vis))
    ensures forall x | x in q :: x in BfsFrom(store, q, vis)
    decreases Unvisited(store, vis), FirstUnseen(q, Seen(vis))
  {
    if q != [] {
      var step := BfsStep(store, q, vis);
      BfsFromUnfold(store, q, vis);
      BfsFromExtends(store, q, vis);
      BfsFromCloses(store, step.0, step.1);
      var r := BfsFrom(store, q, vis);
      forall x | x in q ensures x in r {
        if x != q[0] {
          var k :| 0 <= k < |q| && q[k] == x;
          assert step.0[k - 1] == x;
        }
      }
    }
  }

  /** A set closed under parent links that holds `h` holds every ancestor of `h`. */
  lemma ClosedHoldsReachable(store: Store, r: seq<Id>, h: Id, x: Id)
    requires Frontier(store, [], r) && h in r && Reachable(store, h, x)
    ensures x in r
  {
    var path :| IsPath(store, path) && path[0] == h && path[|path| - 1] == x;
    var i := 0;
    while i < |path| - 1
      invariant 0 <= i < |path| && path[i] in r
    {
      assert path[i + 1] in Parents(store[path[i]]);
      i := i + 1;
    }
  }

  /** Every ancestor of h (and h itself) is in traverse(h). */
  lemma TraverseComplete(store: Store, head: Id, x: Id)
    requires Closed(store) && head in store && Reachable(store, head, x)
    ensures x in BfsOrder(store, head)
  {
    BfsFromCloses(store, [head], []);
    ClosedHoldsReachable(store, BfsOrder(store, head), head, x);
  }

  /**
   * findSplit's result is a commit of `known` that is `head` or one of its
   * ancestors, and it is null only when no such commit exists.
   */
  lemma FindSplitSound(store: Store, known: seq<Id>, head: Id)
    requires Closed(store) && head in store
    ensures var split := FirstIn(BfsOrder(store, head), known);
      && (split.Some? ==> split.value in known && Reachable(store, head, split.value))
      && (split.None? <==> forall x | Reachable(store, head, x) :: x !in known)
  {
    var order := BfsOrder(store, head);
    var split := FirstIn(order, known);
    TraverseSound(store, head);
    if split.Some? {
      var k :| 0 <= k < |order| && order[k] == split.value && split.value in known;
      assert Reachable(store, head, order[k]);
    } else {
      forall x | Reachable(store, head, x) ensures x !in known {
        TraverseComplete(store, head, x);
        var k :| 0 <= k < |order| && order[k] == x;
      }
    }
  }

  /**
   * When the current head is an ancestor of the given head (or the given
   * head itself), the split point is the current head: the fast-forward case.
   */
  lemma SplitIsHeadWhenBehind(store: Store, given: Id, head: Id)
    requires Closed(store) && given in store && head in store && Reachable(store, given, head)
    ensures FirstIn(BfsOrder(store, head), BfsOrder(store, given)) == Some(head)
  {
    TraverseComplete(store, given, head);
    TraverseStartsAtHead(store, head);
    FirstInAt(BfsOrder(store, head), BfsOrder(store, given), 0);
  }
}
