/**
 * Gitlet.java: the repository object. It holds the head commit, the current
 * branch, the branch table, the abbreviated-id table and the stage. Here it
 * also holds the parts of the outside world its commands read and write:
 * the working directory (filename to content) and the two object-store
 * directories (commit id to commit, blob id to blob).
 */
module Repository {
  import opened Wrappers
  import opened Blobs
  import opened Commits
  import opened Staging
  import opened History
  import opened Trees
  import opened MergeRules

  /**
   * How a command ends: normally, through System.exit(0) after printing
   * `message`, or with an uncaught exception.
   */
  datatype Outcome = Ok | Exit(message: string) | Crash(exception: string)

  const FileMissing := "File does not exist."
  const NoChanges := "No changes added to the commit."
  const NoMessage := "Please enter a commit message."
  const NoSuchCommit := "No commit with that id exists."
  const NotInCommit := "File does not exist in that commit."
  const NoSuchBranch := "No such branch exists."
  const SameBranch := "No need to checkout the current branch."
  const NoReasonToRemove := "No reason to remove the file."
  const BranchExists := "A branch with that name already exists."
  const BranchMissing := "A branch with that name does not exist."
  const RemoveCurrent := "Cannot remove the current branch."
  const Untracked := "There is an untracked file in the way; delete it, or add and commit it first."
  const Uncommitted := "You have uncommitted changes."
  const MergeBranchMissing := "A branch with that name does not exist"
  const MergeSelf := "Cannot merge a branch with itself."

  /** The key of the abbreviated-id table: the first five characters of the id. */
  function Abbrev(id: Id): string {
    id[..5]
  }

  /** The message mergeCommit gives its commit. */
  function MergeMessage(curr: string, given: string): string {
    "Merged " + given + " into " + curr + "."
  }

  /**
   * What a merge works from once its checks pass: the context of the two
   * file loops (the head they see is the given head after a fast-forward),
   * the working state they start from, and the two printed cases.
   */
  datatype Plan = Plan(x: MergeCtx, start: Work, fastForward: bool, ancestor: bool)

  /**
   * The merge loops, taking the files in the orders `go` and `so`, leave
   * `cwd`, stage the additions that make the merge commit's tree `tree`,
   * and leave the flag `conflict`.
   */
  ghost predicate MergedBy(p: Plan, go: seq<string>, so: seq<string>,
                           cwd: map<string, string>, tree: map<string, Id>, conflict: bool)
    requires CtxOk(p.x) && AllIn(go, p.x.given.blobs) && AllIn(so, p.x.split.blobs)
  {
    var gf := GivenFold(p.x, p.start, false, go);
    && !gf.halted
    && var sf := SplitFold(p.x, gf.w, gf.conflict, so);
    && cwd == sf.w.cwd && tree == p.x.head.blobs + StagedIds(sf.w.add) && conflict == sf.conflict
  }

  /** Some iteration order of the two key sets leads the merge loops to this result. */
  ghost predicate MergeResult(p: Plan, cwd: map<string, string>, tree: map<string, Id>, conflict: bool)
    requires CtxOk(p.x)
  {
    exists go: seq<string>, so: seq<string> |
      Enumerates(go, p.x.given.blobs.Keys) && Enumerates(so, p.x.split.blobs.Keys) ::
      MergedBy(p, go, so, cwd, tree, conflict)
  }

  /** An enumeration of a map's keys only hands out keys of the map. */
  lemma EnumeratesAllIn(order: seq<string>, m: map<string, Id>)
    requires Enumerates(order, m.Keys)
    ensures AllIn(order, m)
  {
  }

  lemma MergeResultIntro(p: Plan, go: seq<string>, so: seq<string>,
                         cwd: map<string, string>, tree: map<string, Id>, conflict: bool)
    requires CtxOk(p.x) && Enumerates(go, p.x.given.blobs.Keys) && Enumerates(so, p.x.split.blobs.Keys)
    requires AllIn(go, p.x.given.blobs) && AllIn(so, p.x.split.blobs)
    requires MergedBy(p, go, so, cwd, tree, conflict)
    ensures MergeResult(p, cwd, tree, conflict)
  {
  }

  /**
   * The two file loops of Gitlet.merge over some iteration order of the
   * given and split trees: either the given loop stops the program, which
   * happens only when the given head's id does not resolve, or the loops
   * leave the result that order leads to.
   */
  method MergeLoops(x: MergeCtx, start: Work, ghost plan: Plan) returns (halted: bool, w: Work, conflict: bool)
    requires CtxOk(x) && plan.x == x && plan.start == start
    ensures halted ==> !x.givenResolvable
    ensures !halted ==> MergeResult(plan, w.cwd, x.head.blobs + StagedIds(w.add), conflict)
  {
    var givenFiles := Enumerate(x.given.blobs.Keys);
    EnumeratesAllIn(givenFiles, x.given.blobs);
    var p := GivenLoop(x, start, givenFiles);
    if p.halted {
      GivenFoldHalts(x, start, false, givenFiles);
      return true, p.w, p.conflict;
    }
    var splitFiles := Enumerate(x.split.blobs.Keys);
    EnumeratesAllIn(splitFiles, x.split.blobs);
    var s := SplitLoop(x, p.w, p.conflict, splitFiles);
    MergeResultIntro(plan, givenFiles, splitFiles, s.w.cwd, x.head.blobs + StagedIds(s.w.add), s.conflict);
    return false, s.w, s.conflict;
  }

  /**
   * After a merge, a file that the current head left as at the split and
   * the given head deleted is gone from the working directory, yet stays in
   * the merge commit's tree with the head's blob: mergeCommit never applies
   * the removal the split-files loop staged.
   */
  lemma MergeDeletes(p: Plan, cwd: map<string, string>, tree: map<string, Id>, conflict: bool, f: string)
    requires CtxOk(p.x) && MergeResult(p, cwd, tree, conflict)
    requires f in p.x.split.blobs && f in p.x.head.blobs && p.x.head.blobs[f] == p.x.split.blobs[f]
    requires f !in p.x.given.blobs
    ensures f !in cwd && f in tree && tree[f] == p.x.head.blobs[f]
  {
    var go, so :| Enumerates(go, p.x.given.blobs.Keys) && Enumerates(so, p.x.split.blobs.Keys)
                  && MergedBy(p, go, so, cwd, tree, conflict);
    EnumeratesAllIn(go, p.x.given.blobs);
    EnumeratesAllIn(so, p.x.split.blobs);
    var gf := GivenFold(p.x, p.start, false, go);
    SplitFoldDeletes(p.x, gf.w, gf.conflict, so, f);
    var sf := SplitFold(p.x, gf.w, gf.conflict, so);
    assert f !in StagedIds(sf.w.add);
  }

  /**
   * After a merge, a file deleted on one side and changed on the other holds
   * the conflict text, and the merge reports a conflict.
   */
  lemma MergeConflictText(p: Plan, cwd: map<string, string>, tree: map<string, Id>, conflict: bool, f: string)
    requires CtxOk(p.x) && MergeResult(p, cwd, tree, conflict)
    requires f in p.x.split.blobs && ConflictAt(p.x, f)
    requires f !in p.x.head.blobs || f !in p.x.given.blobs
    ensures f in cwd && cwd[f] == ConflictFor(p.x, f) && conflict
  {
    var go, so :| Enumerates(go, p.x.given.blobs.Keys) && Enumerates(so, p.x.split.blobs.Keys)
                  && MergedBy(p, go, so, cwd, tree, conflict);
    EnumeratesAllIn(go, p.x.given.blobs);
    EnumeratesAllIn(so, p.x.split.blobs);
    var gf := GivenFold(p.x, p.start, false, go);
    SplitFoldConflictCwd(p.x, gf.w, gf.conflict, so, f);
    SplitFoldConflict(p.x, gf.w, gf.conflict, so);
    var i :| 0 <= i < |so| && so[i] == f;
    assert ConflictAt(p.x, so[i]) && (so[i] !in p.x.head.blobs || so[i] !in p.x.given.blobs);
  }

  /** The tree entry a staged `add` of text `t` leaves in the merge commit's tree. */
  lemma StagedTreeAt(sha1: Sha1, head: Commit, add: map<string, Blob>, f: string, t: string)
    requires Lookup(add, f) == StagedFor(sha1, head, f, t)
    ensures var tree := head.blobs + StagedIds(add);
            f in tree && tree[f] == NewBlob(sha1, f, t).id
  {
  }

  /** In the orders `go`, `so`, a file the split loop does not act on ends as its given pass left it. */
  lemma {:induction false} MergedByAt(p: Plan, go: seq<string>, so: seq<string>,
                                      cwd: map<string, string>, tree: map<string, Id>, conflict: bool, f: string)
    requires CtxOk(p.x) && Enumerates(go, p.x.given.blobs.Keys) && Enumerates(so, p.x.split.blobs.Keys)
    requires AllIn(go, p.x.given.blobs) && AllIn(so, p.x.split.blobs)
    requires MergedBy(p, go, so, cwd, tree, conflict) && p.x.givenResolvable
    requires f in p.x.given.blobs && (f in p.x.split.blobs ==> !SplitTouches(p.x, f))
    ensures var gw := GivenStep(p.x, p.start, f).w;
            Lookup(cwd, f) == Lookup(gw.cwd, f)
            && exists add: map<string, Blob> :: tree == p.x.head.blobs + StagedIds(add) && Lookup(add, f) == Lookup(gw.add, f)
  {
    var gf := GivenFold(p.x, p.start, false, go);
    GivenFoldAt(p.x, p.start, false, go, f);
    SplitFoldKeeps(p.x, gf.w, gf.conflict, so, f);
    var sf := SplitFold(p.x, gf.w, gf.conflict, so);
    assert tree == p.x.head.blobs + StagedIds(sf.w.add);
  }

  /**
   * After a merge, a given-head file that the split-files loop does not act
   * on (every given-head file but a deletion conflict) ends as the
   * given-files loop left it: the conflict text when the three sides all
   * differ, the given version when only the given side changed it, and
   * otherwise what the working directory held before; the merge commit's
   * tree records the blob `add` made of the new text.
   */
  lemma MergeGivenOutcome(p: Plan, cwd: map<string, string>, tree: map<string, Id>, conflict: bool, f: string)
    requires CtxOk(p.x) && MergeResult(p, cwd, tree, conflict) && p.x.givenResolvable
    requires f in p.x.given.blobs && (f in p.x.split.blobs ==> !SplitTouches(p.x, f)) && f !in p.start.rem
    ensures ConflictAt(p.x, f) ==>
              f in cwd && cwd[f] == ConflictFor(p.x, f)
              && f in tree && tree[f] == NewBlob(p.x.sha1, f, ConflictFor(p.x, f)).id
    ensures var given := p.x.blobFiles[p.x.given.blobs[f]];
            !ConflictAt(p.x, f) && Lookup(p.x.given.blobs, f) != Lookup(p.x.split.blobs, f) ==>
              f in cwd && cwd[f] == given.content
              && f in tree && tree[f] == NewBlob(p.x.sha1, f, given.content).id
    ensures Lookup(p.x.given.blobs, f) == Lookup(p.x.split.blobs, f) ==> Lookup(cwd, f) == Lookup(p.start.cwd, f)
  {
    var go, so :| Enumerates(go, p.x.given.blobs.Keys) && Enumerates(so, p.x.split.blobs.Keys)
                  && MergedBy(p, go, so, cwd, tree, conflict);
    EnumeratesAllIn(go, p.x.given.blobs);
    EnumeratesAllIn(so, p.x.split.blobs);
    MergedByAt(p, go, so, cwd, tree, conflict, f);
    var add: map<string, Blob> :| tree == p.x.head.blobs + StagedIds(add)
                                  && Lookup(add, f) == Lookup(GivenStep(p.x, p.start, f).w.add, f);
    GivenStepOutcome(p.x, p.start, f);
    var given := p.x.blobFiles[p.x.given.blobs[f]];
    if ConflictAt(p.x, f) {
      StagedTreeAt(p.x.sha1, p.x.head, add, f, ConflictFor(p.x, f));
    } else if Lookup(p.x.given.blobs, f) != Lookup(p.x.split.blobs, f) {
      StagedTreeAt(p.x.sha1, p.x.head, add, f, given.content);
    }
  }

  /** Storing a commit keeps every parent link inside the store when the new commit's parents are stored. */
  lemma ClosedInsert(store: Store, c: Commit)
    requires Closed(store) && Parents(c) <= store.Keys
    ensures Closed(store[c.id := c])
  {
    var s := store[c.id := c];
    forall k | k in s ensures Parents(s[k]) <= s.Keys {
      if k != c.id {
        assert Parents(s[k]) == Parents(store[k]);
      }
    }
  }

  class Gitlet {
    var head: Commit
    var currBranch: string
    var branchList: map<string, Id>
    var commits: map<string, Id>
    const stageArea: Stage
    var cwd: map<string, string>
    var commitFiles: map<Id, Commit>
    var blobFiles: map<Id, Blob>
    const sha1: Sha1

    /** The object store is self-consistent: ids are keys, parents are stored, trees' blobs are stored. */
    ghost predicate StoreOk()
      reads this
    {
      && (forall id | id in commitFiles :: commitFiles[id].id == id)
      && Closed(commitFiles)
      && (forall id | id in commitFiles :: TreeStored(commitFiles[id].blobs, blobFiles))
    }

    /** Every id the tables hold names a stored commit. */
    ghost predicate TablesOk()
      reads this
    {
      && (forall b | b in branchList :: branchList[b] in commitFiles)
      && (forall a | a in commits :: commits[a] in commitFiles)
    }

    /**
     * What the commands keep: the head is the stored commit under its id,
     * the current branch points at it, and every loadCommit and getBlob the
     * commands make finds its file.
     */
    ghost predicate Valid()
      reads this
    {
      && StoreOk()
      && TablesOk()
      && head.id in commitFiles && commitFiles[head.id] == head
      && currBranch in branchList && branchList[currBranch] == head.id
    }

    /**
     * The plan of merging `branchName` into the current state: the split
     * point is the first commit, breadth-first from the head, that the
     * breadth-first search from the given head visits; none means findSplit
     * returned null.
     */
    ghost function MergePlan(branchName: string): (p: Option<Plan>)
      reads this
      requires Valid() && branchName in branchList
      ensures p.Some? ==> CtxOk(p.value.x)
    {
      var g := branchList[branchName];
      var sp := FirstIn(BfsOrder(commitFiles, head.id), BfsOrder(commitFiles, g));
      FindSplitSound(commitFiles, BfsOrder(commitFiles, g), head.id);
      if sp.None? then None
      else
        ReachableStored(commitFiles, head.id, sp.value);
        var ff := sp.value == head.id;
        var given := commitFiles[g];
        var pre := if ff then given else head;
        var start := if ff then (cwd + TreeContents(given.blobs, blobFiles)) - (head.blobs.Keys - given.blobs.Keys)
                     else cwd;
        Some(Plan(MergeCtx(sha1, pre, given, commitFiles[sp.value], blobFiles, KnownId(commits, g)),
                  Work(start, map[], map[]), ff, sp.value == g))
    }

    /** Gitlet(): make and store the initial commit, on branch master. */
    constructor (sha1: Sha1, epoch: int, cwd: map<string, string>)
      ensures Valid()
      ensures this.sha1 == sha1 && this.cwd == cwd
      ensures head == InitialCommit(sha1, epoch) && currBranch == InitialBranch
      ensures branchList == map[InitialBranch := head.id] && commits == map[Abbrev(head.id) := head.id]
      ensures commitFiles == map[head.id := head] && blobFiles == map[]
      ensures fresh(stageArea) && stageArea.IsEmpty()
    {
      var first := InitialCommit(sha1, epoch);
      this.sha1 := sha1;
      this.cwd := cwd;
      commitFiles := map[first.id := first];
      blobFiles := map[];
      head := first;
      currBranch := first.branch;
      branchList := map[first.branch := first.id];
      commits := map[Abbrev(first.id) := first.id];
      stageArea := new Stage();
    }

    /**
     * The tail shared by commit and mergeCommit: store the commit, make it
     * the head and the current branch's tip, record its abbreviation, clear
     * the stage.
     */
    method Advance(c: Commit)
      requires StoreOk() && TablesOk() && currBranch in branchList
      requires Parents(c) <= commitFiles.Keys && TreeStored(c.blobs, blobFiles)
      modifies this, stageArea
      ensures Valid()
      ensures head == c && commitFiles == old(commitFiles)[c.id := c]
      ensures branchList == old(branchList)[currBranch := c.id]
      ensures commits == old(commits)[Abbrev(c.id) := c.id]
      ensures stageArea.stageAdd == map[] && stageArea.stageRemoval == map[]
      ensures currBranch == old(currBranch) && cwd == old(cwd) && blobFiles == old(blobFiles)
    {
      ClosedInsert(commitFiles, c);
      commitFiles := commitFiles[c.id := c];
      head := c;
      branchList := branchList[currBranch := c.id];
      commits := commits[Abbrev(c.id) := c.id];
      stageArea.Clear();
    }

    /**
     * Gitlet.add: a file staged for removal is only un-removed; any other
     * file goes through Stage.add against the head.
     */
    method Add(filename: string) returns (r: Outcome)
      requires Valid()
      modifies stageArea
      ensures Valid()
      ensures filename in old(stageArea.stageRemoval) ==>
                r == Ok && stageArea.stageRemoval == old(stageArea.stageRemoval) - {filename}
                && stageArea.stageAdd == old(stageArea.stageAdd)
      ensures filename !in old(stageArea.stageRemoval) && filename !in cwd ==>
                r == Exit(FileMissing) && stageArea.stageAdd == old(stageArea.stageAdd)
                && stageArea.stageRemoval == old(stageArea.stageRemoval)
      ensures filename !in old(stageArea.stageRemoval) && filename in cwd ==>
                r == Ok && stageArea.stageRemoval == old(stageArea.stageRemoval)
                && stageArea.stageAdd
                   == AddRule(old(stageArea.stageAdd), filename, NewBlob(sha1, filename, cwd[filename]), head.blobs)
    {
      if filename in stageArea.stageRemoval {
        stageArea.Unremove(filename);
        return Ok;
      }
      var a := stageArea.Add(filename, head, cwd, sha1);
      if a == FileDoesNotExist {
        return Exit(FileMissing);
      }
      return Ok;
    }

    /**
     * Gitlet.commit: refuse an empty stage, then an empty message; otherwise
     * commit the head's tree with the staged additions put in and the staged
     * removals taken out, on the current branch, with the head as parent.
     */
    method CommitChanges(message: string, now: int) returns (r: Outcome)
      requires Valid()
      modifies this, stageArea
      ensures Valid()
      ensures old(stageArea.IsEmpty()) ==> r == Exit(NoChanges) && unchanged(this, stageArea)
      ensures !old(stageArea.IsEmpty()) && message == "" ==> r == Exit(NoMessage) && unchanged(this, stageArea)
      ensures !old(stageArea.IsEmpty()) && message != "" ==>
                && r == Ok
                && head == NewCommit(sha1, message, now,
                                     CommitTree(old(head.blobs), old(stageArea.stageAdd), old(stageArea.stageRemoval)),
                                     Some(old(head.id)), old(currBranch))
                && currBranch == old(currBranch)
                && branchList == old(branchList)[currBranch := head.id]
                && commits == old(commits)[Abbrev(head.id) := head.id]
                && commitFiles == old(commitFiles)[head.id := head]
                && blobFiles.Keys == old(blobFiles).Keys + AddedIds(old(stageArea.stageAdd), old(stageArea.stageAdd).Keys)
                && StoreAfter(blobFiles, old(blobFiles), old(stageArea.stageAdd), old(stageArea.stageAdd).Keys)
                && stageArea.IsEmpty() && cwd == old(cwd)
    {
      if stageArea.IsEmpty() {
        return Exit(NoChanges);
      }
      if message == "" {
        return Exit(NoMessage);
      }
      var parentBlobs, bf := ApplyAdds(head.blobs, stageArea.stageAdd, blobFiles);
      parentBlobs := ApplyRemovals(parentBlobs, stageArea.stageRemoval);
      TreeStoredAfterAdds(head.blobs, stageArea.stageAdd, stageArea.stageRemoval.Keys, blobFiles, bf);
      var c := NewCommit(sha1, message, now, parentBlobs, Some(head.id), currBranch);
      forall id | id in commitFiles ensures TreeStored(commitFiles[id].blobs, bf) {
        TreeStoredGrow(commitFiles[id].blobs, blobFiles, bf);
      }
      blobFiles := bf;
      Advance(c);
      return Ok;
    }

    /**
     * Gitlet.checkout(commitID, filename): resolve the id, then write the
     * file as that commit holds it into the working directory.
     */
    method CheckoutFile(commitID: string, filename: string) returns (r: Outcome)
      requires Valid()
      modifies this
      ensures Valid()
      ensures head == old(head) && currBranch == old(currBranch) && branchList == old(branchList)
      ensures commits == old(commits) && commitFiles == old(commitFiles) && blobFiles == old(blobFiles)
      ensures r.Exit? || r.Crash? ==> cwd == old(cwd)
      ensures r != Crash("NullPointerException")
      ensures r == Exit(NoSuchCommit) <==> Unresolvable(commits, commitID)
      ensures r == Exit(NotInCommit) ==>
                exists id | KnownId(commits, id) && Matches(commitID, id) :: filename !in commitFiles[id].blobs
      ensures r == Ok ==>
                exists id | KnownId(commits, id) && Matches(commitID, id) ::
                  filename in commitFiles[id].blobs
                  && cwd == old(cwd)[filename := blobFiles[commitFiles[id].blobs[filename]].content]
      ensures r == Ok || r == Exit(NoSuchCommit) || r == Exit(NotInCommit)
    {
      var id := ResolveId(commits, commitID);
      if id.None? {
        return Exit(NoSuchCommit);
      }
      var c := commitFiles[id.value];
      var blob := GetBlob(c, filename, blobFiles);
      if blob.None? {
        return Exit(NotInCommit);
      }
      cwd := cwd[filename := blob.value.content];
      return Ok;
    }

    /**
     * Gitlet.checkoutBranch: refuse a missing or current branch and untracked
     * files; write the branch head's files, delete the files only the old head
     * tracks, switch branch and head, clear the stage.
     */
    method CheckoutBranch(branchName: string) returns (r: Outcome)
      requires Valid()
      modifies this, stageArea
      ensures Valid()
      ensures branchList == old(branchList) && commits == old(commits)
      ensures commitFiles == old(commitFiles) && blobFiles == old(blobFiles)
      ensures branchName !in branchList ==> r == Exit(NoSuchBranch) && unchanged(this, stageArea)
      ensures branchName in branchList && branchName == old(currBranch) ==>
                r == Exit(SameBranch) && unchanged(this, stageArea)
      ensures branchName in branchList && branchName != old(currBranch)
              && !NoUntracked(old(cwd).Keys, old(head), old(stageArea.stageAdd)) ==>
                r == Exit(Untracked) && unchanged(this, stageArea)
      ensures branchName in branchList && branchName != old(currBranch)
              && NoUntracked(old(cwd).Keys, old(head), old(stageArea.stageAdd)) ==>
                && r == Ok && currBranch == branchName && head == commitFiles[branchList[branchName]]
                && cwd == (old(cwd) + TreeContents(head.blobs, blobFiles)) - (old(head.blobs).Keys - head.blobs.Keys)
                && stageArea.stageAdd == map[] && stageArea.stageRemoval == map[]
    {
      if branchName !in branchList {
        return Exit(NoSuchBranch);
      } else if branchName == currBranch {
        return Exit(SameBranch);
      }
      var ok := AllTracked(cwd.Keys, head, stageArea.stageAdd);
      if !ok {
        return Exit(Untracked);
      }
      var branchHead := commitFiles[branchList[branchName]];
      var c := WriteTree(cwd, branchHead.blobs, blobFiles);
      c := DeleteMissing(c, head.blobs, branchHead.blobs);
      cwd := c;
      currBranch := branchName;
      head := branchHead;
      stageArea.Clear();
      return Ok;
    }

    /**
     * Gitlet.remove: refuse a file neither staged nor tracked; unstage it;
     * if the head tracks it, stage the head's blob for removal and delete it.
     */
    method Remove(filename: string) returns (r: Outcome)
      requires Valid()
      modifies this, stageArea
      ensures Valid()
      ensures head == old(head) && currBranch == old(currBranch) && branchList == old(branchList)
      ensures commits == old(commits) && commitFiles == old(commitFiles) && blobFiles == old(blobFiles)
      ensures !Tracked(head, old(stageArea.stageAdd), filename) ==>
                r == Exit(NoReasonToRemove) && unchanged(this, stageArea)
      ensures filename !in head.blobs && filename in old(stageArea.stageAdd) ==>
                r == Ok && stageArea.stageAdd == old(stageArea.stageAdd) - {filename}
                && stageArea.stageRemoval == old(stageArea.stageRemoval) && cwd == old(cwd)
      ensures filename in head.blobs ==>
                r == Ok
                && Work(cwd, stageArea.stageAdd, stageArea.stageRemoval)
                   == RemoveOf(head, blobFiles,
                               Work(old(cwd), old(stageArea.stageAdd), old(stageArea.stageRemoval)), filename)
    {
      if !stageArea.Contains(filename) && !Tracked(head, stageArea.stageAdd, filename) {
        return Exit(NoReasonToRemove);
      }
      if stageArea.Contains(filename) {
        stageArea.Unstage(filename);
      }
      if Tracked(head, stageArea.stageAdd, filename) {
        var id := head.blobs[filename];
        var b := blobFiles[id];
        stageArea.StageRemove(b);
        cwd := cwd - {filename};
      }
      return Ok;
    }

    /** Gitlet.branch: a new branch at the head, unless the name is taken. */
    method Branch(branchName: string) returns (r: Outcome)
      requires Valid()
      modifies this
      ensures Valid()
      ensures branchName in old(branchList) ==> r == Exit(BranchExists) && unchanged(this)
      ensures branchName !in old(branchList) ==>
                r == Ok && branchList == old(branchList)[branchName := head.id]
      ensures head == old(head) && currBranch == old(currBranch) && commits == old(commits)
      ensures cwd == old(cwd) && commitFiles == old(commitFiles) && blobFiles == old(blobFiles)
    {
      if branchName in branchList {
        return Exit(BranchExists);
      }
      branchList := branchList[branchName := head.id];
      return Ok;
    }

    /** Gitlet.removeBranch: drop a branch that exists and is not the current one. */
    method RemoveBranch(branchName: string) returns (r: Outcome)
      requires Valid()
      modifies this
      ensures Valid()
      ensures branchName !in old(branchList) ==> r == Exit(BranchMissing) && unchanged(this)
      ensures branchName in old(branchList) && branchName == currBranch ==>
                r == Exit(RemoveCurrent) && unchanged(this)
      ensures branchName in old(branchList) && branchName != currBranch ==>
                r == Ok && branchList == old(branchList) - {branchName}
      ensures head == old(head) && currBranch == old(currBranch) && commits == old(commits)
      ensures cwd == old(cwd) && commitFiles == old(commitFiles) && blobFiles == old(blobFiles)
    {
      if branchName !in branchList {
        return Exit(BranchMissing);
      } else if currBranch == branchName {
        return Exit(RemoveCurrent);
      }
      branchList := branchList - {branchName};
      return Ok;
    }

    /**
     * Gitlet.reset: resolve the id, refuse untracked files, then check out
     * the commit over the files present in the working directory, clear the
     * stage and move the current branch and the head to the commit.
     */
    method Reset(commitID: string) returns (r: Outcome)
      requires Valid()
      modifies this, stageArea
      ensures Valid()
      ensures currBranch == old(currBranch) && commits == old(commits)
      ensures commitFiles == old(commitFiles) && blobFiles == old(blobFiles)
      ensures r == Exit(NoSuchCommit) <==> Unresolvable(commits, commitID)
      ensures r == Exit(NoSuchCommit) ==> unchanged(this, stageArea)
      ensures r == Exit(Untracked) ==>
                !NoUntracked(old(cwd).Keys, old(head), old(stageArea.stageAdd)) && unchanged(this, stageArea)
      ensures r == Ok ==>
                && NoUntracked(old(cwd).Keys, old(head), old(stageArea.stageAdd))
                && KnownId(commits, head.id) && Matches(commitID, head.id)
                && cwd == ResetContents(old(cwd).Keys, head.blobs, blobFiles)
                && branchList == old(branchList)[currBranch := head.id]
                && stageArea.stageAdd == map[] && stageArea.stageRemoval == map[]
      ensures r == Ok || r == Exit(NoSuchCommit) || r == Exit(Untracked)
    {
      var id := ResolveId(commits, commitID);
      if id.None? {
        return Exit(NoSuchCommit);
      }
      var ok := AllTracked(cwd.Keys, head, stageArea.stageAdd);
      if !ok {
        return Exit(Untracked);
      }
      ResetTo(commitFiles[id.value]);
      return Ok;
    }

    /** The part of reset after the checks: check the commit out and move the branch and the head to it. */
    method ResetTo(cm: Commit)
      requires Valid() && cm.id in commitFiles && commitFiles[cm.id] == cm
      modifies this, stageArea
      ensures Valid()
      ensures head == cm && cwd == ResetContents(old(cwd).Keys, cm.blobs, blobFiles)
      ensures branchList == old(branchList)[currBranch := cm.id]
      ensures stageArea.stageAdd == map[] && stageArea.stageRemoval == map[]
      ensures currBranch == old(currBranch) && commits == old(commits)
      ensures commitFiles == old(commitFiles) && blobFiles == old(blobFiles)
    {
      var c := ResetTree(cwd, cm.blobs, blobFiles);
      cwd := c;
      stageArea.Clear();
      branchList := branchList[currBranch := cm.id];
      head := cm;
    }

    /**
     * Gitlet.mergeCommit: commit the head's tree with the staged additions put
     * in (the staged removals are not applied), with the head as parent and
     * the given branch's tip as merged parent.
     */
    method MergeCommit(curr: string, given: string, now: int)
      requires Valid() && given in branchList
      modifies this, stageArea
      ensures Valid()
      ensures head == SetMergedParent(
                        NewCommit(sha1, MergeMessage(curr, given), now,
                                  old(head.blobs) + StagedIds(old(stageArea.stageAdd)),
                                  Some(old(head.id)), old(currBranch)),
                        Some(old(branchList)[given]))
      ensures currBranch == old(currBranch) && branchList == old(branchList)[currBranch := head.id]
      ensures commits == old(commits)[Abbrev(head.id) := head.id]
      ensures commitFiles == old(commitFiles)[head.id := head]
      ensures blobFiles.Keys == old(blobFiles).Keys + AddedIds(old(stageArea.stageAdd), old(stageArea.stageAdd).Keys)
      ensures StoreAfter(blobFiles, old(blobFiles), old(stageArea.stageAdd), old(stageArea.stageAdd).Keys)
      ensures cwd == old(cwd) && stageArea.stageAdd == map[] && stageArea.stageRemoval == map[]
    {
      var parentBlobs, bf := ApplyAdds(head.blobs, stageArea.stageAdd, blobFiles);
      TreeStoredAfterAdds(head.blobs, stageArea.stageAdd, {}, blobFiles, bf);
      assert parentBlobs - {} == parentBlobs;
      var message := MergeMessage(curr, given);
      var c := NewCommit(sha1, message, now, parentBlobs, Some(head.id), currBranch);
      c := SetMergedParent(c, Some(branchList[given]));
      forall id | id in commitFiles ensures TreeStored(commitFiles[id].blobs, bf) {
        TreeStoredGrow(commitFiles[id].blobs, blobFiles, bf);
      }
      blobFiles := bf;
      Advance(c);
    }

    /**
     * Gitlet.merge: checkMergeError's checks in order, then checkUntracked;
     * find the split point (a null one crashes the equals call); on a
     * fast-forward check the given branch out and carry on; run the
     * given-files and split-files loops; commit the merge on the current
     * branch. A checkout in the given-files loop exits when the given head's
     * id is not in the abbreviation table, leaving what was done so far.
     */
    method Merge(branchName: string, now: int)
      returns (r: Outcome, conflict: bool, fastForwarded: bool, givenIsAncestor: bool)
      requires Valid()
      modifies this, stageArea
      ensures Valid()
      ensures !old(stageArea.IsEmpty()) ==> r == Exit(Uncommitted) && unchanged(this, stageArea)
      ensures old(stageArea.IsEmpty()) && branchName !in old(branchList) ==>
                r == Exit(MergeBranchMissing) && unchanged(this, stageArea)
      ensures old(stageArea.IsEmpty()) && branchName in old(branchList) && branchName == old(currBranch) ==>
                r == Exit(MergeSelf) && unchanged(this, stageArea)
      ensures old(stageArea.IsEmpty()) && branchName in old(branchList) && branchName != old(currBranch)
              && !NoUntracked(old(cwd).Keys, old(head), old(stageArea.stageAdd)) ==>
                r == Exit(Untracked) && unchanged(this, stageArea)
      ensures r.Crash? ==>
                branchName in old(branchList) && old(MergePlan(branchName)).None? && unchanged(this, stageArea)
      ensures r == Exit(NoSuchCommit) ==>
                branchName in old(branchList) && old(MergePlan(branchName)).Some?
                && !old(MergePlan(branchName)).value.x.givenResolvable
      ensures r == Ok ==>
                && old(stageArea.IsEmpty()) && branchName in old(branchList) && branchName != old(currBranch)
                && NoUntracked(old(cwd).Keys, old(head), old(stageArea.stageAdd))
                && old(MergePlan(branchName)).Some?
                && var p := old(MergePlan(branchName)).value;
                && fastForwarded == p.fastForward && givenIsAncestor == p.ancestor
                && currBranch == (if p.fastForward then branchName else old(currBranch))
                && head.parent == Some(p.x.head.id) && head.mergedParent == Some(p.x.given.id)
                && head.message == MergeMessage(currBranch, branchName) && head.branch == currBranch
                && commitFiles == old(commitFiles)[head.id := head] && old(blobFiles).Keys <= blobFiles.Keys
                && branchList == old(branchList)[currBranch := head.id]
                && stageArea.stageAdd == map[] && stageArea.stageRemoval == map[]
                && MergeResult(p, cwd, head.blobs, conflict)
      ensures old(stageArea.IsEmpty()) && branchName in old(branchList) && branchName != old(currBranch)
              && NoUntracked(old(cwd).Keys, old(head), old(stageArea.stageAdd)) ==>
                (r == Ok || r == Exit(NoSuchCommit) || r.Crash?)
                && (old(MergePlan(branchName)).None? ==> r.Crash?)
      ensures r.Exit? ==> r.message in {Uncommitted, MergeBranchMissing, MergeSelf, Untracked, NoSuchCommit}
    {
      conflict, fastForwarded, givenIsAncestor := false, false, false;
      if !stageArea.IsEmpty() {
        return Exit(Uncommitted), conflict, fastForwarded, givenIsAncestor;
      }
      if branchName !in branchList {
        return Exit(MergeBranchMissing), conflict, fastForwarded, givenIsAncestor;
      }
      if branchName == currBranch {
        return Exit(MergeSelf), conflict, fastForwarded, givenIsAncestor;
      }
      var ok := AllTracked(cwd.Keys, head, stageArea.stageAdd);
      if !ok {
        return Exit(Untracked), conflict, fastForwarded, givenIsAncestor;
      }
      r, conflict, fastForwarded, givenIsAncestor := MergeChecked(branchName, now);
    }

    /** Gitlet.merge once its checks have passed. */
    method MergeChecked(branchName: string, now: int)
      returns (r: Outcome, conflict: bool, fastForwarded: bool, givenIsAncestor: bool)
      requires Valid() && branchName in branchList && branchName != currBranch
      requires stageArea.IsEmpty() && NoUntracked(cwd.Keys, head, stageArea.stageAdd)
      modifies this, stageArea
      ensures Valid()
      ensures r.Crash? ==> old(MergePlan(branchName)).None? && unchanged(this, stageArea)
      ensures r == Exit(NoSuchCommit) ==>
                old(MergePlan(branchName)).Some? && !old(MergePlan(branchName)).value.x.givenResolvable
      ensures r == Ok ==>
                && old(MergePlan(branchName)).Some?
                && var p := old(MergePlan(branchName)).value;
                && fastForwarded == p.fastForward && givenIsAncestor == p.ancestor
                && currBranch == (if p.fastForward then branchName else old(currBranch))
                && head.parent == Some(p.x.head.id) && head.mergedParent == Some(p.x.given.id)
                && head.message == MergeMessage(currBranch, branchName) && head.branch == currBranch
                && commitFiles == old(commitFiles)[head.id := head] && old(blobFiles).Keys <= blobFiles.Keys
                && branchList == old(branchList)[currBranch := head.id]
                && stageArea.stageAdd == map[] && stageArea.stageRemoval == map[]
                && MergeResult(p, cwd, head.blobs, conflict)
      ensures r == Ok || r == Exit(NoSuchCommit) || r.Crash?
      ensures old(MergePlan(branchName)).None? ==> r.Crash?
    {
      conflict, fastForwarded, givenIsAncestor := false, false, false;
      ghost var plan := MergePlan(branchName);
      var givenHead := commitFiles[branchList[branchName]];
      var known := Traverse(commitFiles, givenHead.id);
      var split := FindSplit(commitFiles, known, head.id);
      if split.None? {
        return Crash("NullPointerException"), conflict, fastForwarded, givenIsAncestor;
      }
      FindSplitSound(commitFiles, known, head.id);
      ReachableStored(commitFiles, head.id, split.value);
      var splitCommit := commitFiles[split.value];
      fastForwarded := split.value == head.id;
      givenIsAncestor := split.value == givenHead.id;
      IsEmptyIffNoEntries(stageArea);
      if fastForwarded {
        var rr := CheckoutBranch(branchName);
      }
      assert plan.value.x == MergeCtx(sha1, head, givenHead, splitCommit, blobFiles, KnownId(commits, givenHead.id));
      assert plan.value.start == Work(cwd, map[], map[]);
      r, conflict := MergeFiles(givenHead, splitCommit, branchName, now, plan.value);
    }

    /**
     * The file loops of Gitlet.merge and its mergeCommit, from the state the
     * fast-forward (if any) left.
     */
    method MergeFiles(givenHead: Commit, splitCommit: Commit, branchName: string, now: int, ghost plan: Plan)
      returns (r: Outcome, conflict: bool)
      requires Valid() && branchName in branchList && branchList[branchName] == givenHead.id
      requires givenHead.id in commitFiles && commitFiles[givenHead.id] == givenHead
      requires stageArea.stageAdd == map[] && stageArea.stageRemoval == map[]
      requires plan.x == MergeCtx(sha1, head, givenHead, splitCommit, blobFiles, KnownId(commits, givenHead.id))
      requires plan.start == Work(cwd, map[], map[])
      modifies this, stageArea
      ensures Valid()
      ensures r == Exit(NoSuchCommit) ==> !plan.x.givenResolvable
      ensures r == Ok ==>
                && currBranch == old(currBranch)
                && head.parent == Some(old(head.id)) && head.mergedParent == Some(givenHead.id)
                && head.message == MergeMessage(currBranch, branchName) && head.branch == currBranch
                && commitFiles == old(commitFiles)[head.id := head] && old(blobFiles).Keys <= blobFiles.Keys
                && branchList == old(branchList)[currBranch := head.id]
                && stageArea.stageAdd == map[] && stageArea.stageRemoval == map[]
                && MergeResult(plan, cwd, head.blobs, conflict)
      ensures r == Ok || r == Exit(NoSuchCommit)
    {
      var x := MergeCtx(sha1, head, givenHead, splitCommit, blobFiles, KnownId(commits, givenHead.id));
      var halted, w, c := MergeLoops(x, Work(cwd, map[], map[]), plan);
      cwd := w.cwd;
      stageArea.stageAdd := w.add;
      stageArea.stageRemoval := w.rem;
      if halted {
        return Exit(NoSuchCommit), c;
      }
      conflict := c;
      ghost var tree := head.blobs + StagedIds(w.add);
      MergeCommit(currBranch, branchName, now);
      assert head.blobs == tree;
      return Ok, conflict;
    }
  }
}