# Gitlet engine in Dafny

A model of the Gitlet version-control engine: content-addressed blobs and
commits, the staging area, and the repository commands `add`, `commit`,
`rm`, `checkout` (a file from a commit, or a whole branch), `branch`,
`rm-branch`, `reset` and `merge`, with merge's breadth-first split-point
search, its two per-file loops and its conflict file.

Layout, one module per file:

- `wrappers.dfy` (`Wrappers`): `Option`.
- `javalang.dfy` (`JavaLang`): 32-bit `int` wrap-around, `String.hashCode`, `String.contains`.
- `blob.dfy` (`Blobs`): the `Blob` record, the id type and the abstract SHA-1 (`Sha1`, a function parameter over a symbolic `Serialized` form).
- `commit.dfy` (`Commits`): the `Commit` record, both constructors, `setMergedParent`, `getBlob`, `equals`/`hashCode`.
- `stage.dfy` (`Staging`): the class `Stage`, whose methods update its two maps in place.
- `trees.dfy` (`Trees`): the loops over HashMaps and over the working directory that `commit`, `checkout`, `checkoutBranch`, `reset` and `checkUntracked` run, each proved against a function of its inputs.
- `history.dfy` (`History`): `traverse` and `findSplit` as queue-driven loops, both proved equal to one breadth-first specification (`BfsOrder`, `FirstIn`), with reachability lemmas.
- `merge.dfy` (`MergeRules`): one pass of each merge loop as a pure step on the working directory and the stage; the loops are folds of those steps.
- `gitlet.dfy` (`Repository`): the class `Gitlet`, whose methods update the head, the current branch, the branch table, the abbreviated-id table and the stage.

The outside world is part of the `Gitlet` object:

- the working directory is a map from filename to content;
- the two object-store directories are maps from id to `Commit` and from id to `Blob`;
- SHA-1 over Java serialization is an uninterpreted function held as a constant;
- the commit time is a parameter `now`, and the initial commit's date a parameter `epoch`.

A `System.exit(0)` after a message becomes `Outcome.Exit(message)`. The
`NullPointerException` that `split.equals(_head)` throws when `findSplit`
returns null becomes `Outcome.Crash`. Every exit happens before any field
changes, except one inside merge's given-files loop, which keeps the work
done so far.

HashMap iteration order is not fixed by the code. So each loop over a map's
entries picks its next key freely (`var f :| f in remaining`), or walks an
arbitrary enumeration of the keys (`Trees.Enumerate`). Merge's result is
stated as "the result of the two loops for some enumeration of the given
and split trees" (`Repository.MergeResult`). `MergeRules.GivenFoldAt`
proves that each file's outcome in the given-files loop does not depend on
that order.

Reproduced behaviour of the code:

- An abbreviated id shorter than 40 characters resolves to the first known id that *contains* it anywhere, not to one that starts with it.
- A commit id is the digest of message, parent, a null id and branch only. Tree, time and merged parent do not reach it (`CommitIdIgnoresTreeAndTime`). A blob id is the digest of the blob with its id still null.
- `traverse`/`findSplit` test `visited`, not the queue, before enqueuing. A commit already queued is queued again (`StepRequeues`), so the visited list can hold a commit twice.
- In the given-files loop `conflict` is assigned on every pass, so only the last file handed out decides the flag (`GivenFoldConflictIsLast`).
- A fast-forward checks the given branch out and the merge then continues: it commits on the given branch, as "Merged B into B.".
- The ancestor case does not stop the merge either.
- `mergeCommit` applies only the staged additions. A file the split-files loop removes stays in the merge commit's tree.
- `rm` stages the head's blob under the blob's own filename.
- `reset` rewrites or deletes only the files present in the working directory. It does not create files of the commit that are absent there (`ResetContentsAt`).
- The filename is part of a blob's digest (`BlobIdCoversFilename`), so one content under two names need not share a blob.
- The split-files loop calls `doConflict` twice for a file the current head changed and the given head deleted. The second call rewrites the same text (`SplitStepConflictText`).

Where the code departs from the documented behaviour of the engine's
commands (abbreviated-id lookup, the ancestor search, fast-forward
merges, deletions in a merge, and errors that leave the state as it
was), the model follows the code:

- Abbreviation: "contains" and first match, not prefix with an "ambiguous" error.
- The search does not deduplicate.
- A fast-forward still creates a merge commit.
- A deletion the given branch made is not removed from the merge commit's tree.
- The mid-merge exit leaves partial changes behind.

## Model

| member | source | states |
|---|---|---|
| JavaLang.WrapInt32 | gitlet/gitlet/Blob.java:88-90 | the result is a Java int congruent to the input modulo 2^32, and it is the input itself when that already fits |
| JavaLang.ContainsPrefix | gitlet/gitlet/Gitlet.java:162-170 | a string contains each of its prefixes, so a true abbreviation always matches under `contains` |
| JavaLang.ContainsInfix | gitlet/gitlet/Gitlet.java:162-170 | `contains` also accepts every infix: a query need not start the id to match it |
| Blobs.NewBlob | gitlet/gitlet/Blob.java:24-39 | the blob keeps the filename and content given, and its id is SHA-1 of the blob serialized with a null id (the unused `vals` list plays no part) |
| Blobs.BlobIdCoversFilename | gitlet/gitlet/Blob.java:24-39 | the filename reaches the digest: for one content under two filenames some hash function gives different ids |
| Blobs.Equals | gitlet/gitlet/Blob.java:72-84 | false for a non-Blob; for a Blob, true exactly when the ids are equal |
| Blobs.IdHashCode | gitlet/gitlet/Blob.java:88-90 | the hash code of an id is a 32-bit int (String.hashCode of the id), shared by blobs and commits |
| Blobs.HashCode | gitlet/gitlet/Blob.java:88-90 | it is a 32-bit int (String.hashCode of the id) |
| Blobs.EqualsReflexive | gitlet/gitlet/Blob.java:72-75 | every blob equals itself |
| Blobs.EqualsImpliesSameHashCode | gitlet/gitlet/Blob.java:72-90 | equal blobs have equal hash codes |
| Commits.InitialCommit | gitlet/gitlet/Commit.java:49-57 | message "initial commit", empty tree, no parent or merged parent, branch "master", and an id digesting exactly those fields with a null id |
| Commits.NewCommit | gitlet/gitlet/Commit.java:65-87 | message, time, tree, parent and branch as given, no merged parent, id the digest of message, parent, null id and branch |
| Commits.SetMergedParent | gitlet/gitlet/Commit.java:89-91 | only the merged parent changes; the id and every other field stay |
| Commits.CommitIdIgnoresTreeAndTime | gitlet/gitlet/Commit.java:73-91 | two commits that differ only in tree, time or merged parent have the same id |
| Commits.GetBlob | gitlet/gitlet/Commit.java:98-108 | null exactly when `contains` is false; otherwise the stored blob under the tracked id |
| Commits.Parents | gitlet/gitlet/Commit.java:144-153 | an id is a parent link exactly when it is the parent or the merged parent |
| Commits.Equals | gitlet/gitlet/Commit.java:204-216 | false for a non-Commit; for a Commit, true exactly when the ids are equal |
| Commits.HashCode | gitlet/gitlet/Commit.java:220-222 | it is a 32-bit int (String.hashCode of the id) |
| Commits.EqualsImpliesSameHashCode | gitlet/gitlet/Commit.java:204-222 | equal commits have equal hash codes |
| Staging.AddRuleIdempotent | gitlet/gitlet/Stage.java:46-54 | applying the add rule twice with the same blob gives what applying it once gives |
| Staging.Stage.constructor | gitlet/gitlet/Stage.java:21-24 | both maps start empty |
| Staging.Stage.Add | gitlet/gitlet/Stage.java:36-55 | a missing working file is an error with nothing changed; an untracked file or one whose blob id differs from the head's is put in the addition map; one equal to the head's is taken out of it; the removal map never changes |
| Staging.Stage.StageRemove | gitlet/gitlet/Stage.java:62-64 | the removal map gains the blob under the blob's own filename; the addition map is unchanged |
| Staging.Stage.Unstage | gitlet/gitlet/Stage.java:66-68 | only the addition map loses the filename |
| Staging.Stage.Unremove | gitlet/gitlet/Stage.java:70-72 | only the removal map loses the filename |
| Staging.Stage.GetBlob | gitlet/gitlet/Stage.java:74-82 | the addition entry wins over the removal entry; null exactly when neither map holds the file |
| Staging.Stage.Clear | gitlet/gitlet/Stage.java:100-103 | both maps become empty and `isEmpty` holds |
| Staging.IsEmptyIffNoEntries | gitlet/gitlet/Stage.java:92-94 | `isEmpty` holds exactly when both maps are the empty map |
| Trees.ResolveId | gitlet/gitlet/Gitlet.java:162-180 | a found id is a known id that the query matches (contains for a short query, equality otherwise); none is found exactly when no known id matches |
| Trees.PrefixResolves | gitlet/gitlet/Gitlet.java:162-174 | any prefix of a known id, the full id included, resolves to some id |
| Trees.AllTracked | gitlet/gitlet/Gitlet.java:686-700 | the untracked check passes exactly when every working file is tracked by the head or staged for addition |
| Trees.CommitTreeAt | gitlet/gitlet/Gitlet.java:121-140 | per file, in commit's new tree: a staged removal deletes it, otherwise a staged addition sets it to the staged blob's id, otherwise the head's entry stays |
| Trees.ApplyAdds | gitlet/gitlet/Gitlet.java:126-135 | the tree becomes the head's tree overridden by every staged blob's id; the blob store gains exactly the staged blobs' ids, each holding a staged blob with that id (overwriting any old entry), and every other entry keeps its blob |
| Trees.CommittedContent | gitlet/gitlet/Gitlet.java:126-143 | add, commit, checkout: a file staged for addition and not for removal is in the new tree, and the store holds its staged content under that id (barring a digest collision among the staged blobs) |
| Trees.ApplyRemovals | gitlet/gitlet/Gitlet.java:137-140 | every filename staged for removal leaves the tree, and nothing else does |
| Trees.WriteTree | gitlet/gitlet/Gitlet.java:214-223 | every file of the branch head is written with its blob's content; other files are untouched |
| Trees.DeleteMissing | gitlet/gitlet/Gitlet.java:225-231 | exactly the files the old head tracks and the new head does not are deleted |
| Trees.ResetTree | gitlet/gitlet/Gitlet.java:413-420 | the working directory becomes the files present in it that the commit tracks, at the commit's content |
| Trees.ResetContentsAt | gitlet/gitlet/Gitlet.java:413-420 | after reset a file exists exactly when it existed and the commit tracks it, and then holds the commit's content |
| Trees.Enumerate | gitlet/gitlet/Gitlet.java:446 | the keys come out in some order, each exactly once |
| History.StepRequeues | gitlet/gitlet/Gitlet.java:605-610 | a parent already queued but not visited is queued a second time |
| History.Traverse | gitlet/gitlet/Gitlet.java:596-622 | the visited list is the breadth-first order `BfsOrder` from the given head |
| History.FirstIn | gitlet/gitlet/Gitlet.java:633-635 | none exactly when no element is known; otherwise a known element with no known element before it |
| History.FindSplit | gitlet/gitlet/Gitlet.java:624-654 | the result is the first commit of the breadth-first order from the head that is in `known`, or null when there is none |
| History.TraverseStartsAtHead | gitlet/gitlet/Gitlet.java:597-603 | traverse's list starts with the head |
| History.TraverseSound | gitlet/gitlet/Gitlet.java:596-622 | every commit traverse lists is reachable from the head via parent and merged-parent links |
| History.TraverseComplete | gitlet/gitlet/Gitlet.java:596-622 | every commit reachable from the head is listed |
| History.FindSplitSound | gitlet/gitlet/Gitlet.java:624-654 | a split point is known and reachable from the head; null is returned exactly when no commit reachable from the head is known |
| History.SplitIsHeadWhenBehind | gitlet/gitlet/Gitlet.java:436-441 | when the head is an ancestor of the given head, the split point is the head itself (the fast-forward case) |
| MergeRules.ConflictTextDecode | gitlet/gitlet/Gitlet.java:580-584 | the conflict text is the head marker, the current content, the separator, the given content and the end marker, at fixed offsets, 29 characters longer than the two contents |
| MergeRules.ContentOf | gitlet/gitlet/Gitlet.java:566-578 | "" for a side that lacks the file, else the content of that side's stored blob |
| MergeRules.CheckConflict1IsThreeWay | gitlet/gitlet/Gitlet.java:524-547 | checkConflict1 reports a conflict exactly when current, split and given entries for the file are pairwise different (absence counting as a value) |
| MergeRules.NeedsCheckoutIsGivenChange | gitlet/gitlet/Gitlet.java:446-455 | a given-head file is checked out and added exactly when its entry differs from the split's |
| MergeRules.SplitStepConflict | gitlet/gitlet/Gitlet.java:459-481 | a split-loop pass raises the flag exactly for a three-way conflict in which one side deleted the file, and keeps it otherwise |
| MergeRules.GivenFoldConflictIsLast | gitlet/gitlet/Gitlet.java:446-458 | after the given-files loop the flag is the conflict status of the last file handed out |
| MergeRules.GivenFoldHalts | gitlet/gitlet/Gitlet.java:446-458 | the loop exits exactly when the given head's id is not in the abbreviation table and some file needs a checkout |
| MergeRules.SplitFoldConflict | gitlet/gitlet/Gitlet.java:459-481 | after the split-files loop the flag is set exactly when it was set before or some split file is a deletion conflict |
| MergeRules.GivenLoop | gitlet/gitlet/Gitlet.java:446-458 | the loop leaves what the fold of the per-file given step gives (or the exit state) |
| MergeRules.SplitLoop | gitlet/gitlet/Gitlet.java:459-481 | the loop leaves what the fold of the per-file split step gives, whose per-file outcomes SplitFoldDeletes, SplitFoldConflictCwd, SplitFoldKeeps and SplitFoldConflict state |
| MergeRules.AddOfFrame | gitlet/gitlet/Gitlet.java:99-107 | `add` leaves every other filename's working file and stage entries alone |
| MergeRules.DoConflictFrame | gitlet/gitlet/Gitlet.java:564-590 | `doConflict` leaves every other filename's entries alone |
| MergeRules.GivenStepFrame | gitlet/gitlet/Gitlet.java:446-458 | a given-loop pass touches only its own file |
| MergeRules.AddOfLocal | gitlet/gitlet/Gitlet.java:99-107 | what `add` leaves for a file depends only on that file's entries |
| MergeRules.DoConflictLocal | gitlet/gitlet/Gitlet.java:564-590 | what `doConflict` leaves for a file depends only on that file's entries |
| MergeRules.GivenStepLocal | gitlet/gitlet/Gitlet.java:446-458 | what a given-loop pass leaves for its file depends only on that file's entries |
| MergeRules.GivenStepOutcome | gitlet/gitlet/Gitlet.java:446-458 | a three-way conflict leaves the conflict text, staged; a change on the given side alone leaves the given content, staged; an unchanged given entry leaves the file as it was |
| MergeRules.GivenFoldFrame | gitlet/gitlet/Gitlet.java:446-458 | a file the given loop never reaches keeps its entries |
| MergeRules.GivenFoldAt | gitlet/gitlet/Gitlet.java:446-458 | in any iteration order, each given-head file ends up as its own pass leaves it |
| MergeRules.SplitStepDeletes | gitlet/gitlet/Gitlet.java:460-464 | a split file unchanged by the head and deleted by the given side is unstaged, deleted from the working directory and staged for removal; the flag is kept |
| MergeRules.SplitStepConflictText | gitlet/gitlet/Gitlet.java:465-480 | a split file deleted on one side and changed on the other becomes the conflict text, staged, and raises the flag |
| MergeRules.SplitStepFrame | gitlet/gitlet/Gitlet.java:459-481 | a split-loop pass leaves every other filename's working file and staged addition alone |
| MergeRules.SplitFoldFrame | gitlet/gitlet/Gitlet.java:459-481 | a file the split loop never reaches keeps its working file and staged addition |
| MergeRules.SplitStepConflictCwd | gitlet/gitlet/Gitlet.java:465-480 | a deletion-conflict pass leaves the conflict text in the working file, whatever it held before |
| MergeRules.SplitFoldDeletes | gitlet/gitlet/Gitlet.java:459-464 | in any order of the split files, a file unchanged by the head and deleted by the given side ends the loop deleted and not staged for addition |
| MergeRules.SplitFoldConflictCwd | gitlet/gitlet/Gitlet.java:459-481 | in any order of the split files, a deletion-conflict file ends the loop holding the conflict text |
| MergeRules.SplitStepKeeps | gitlet/gitlet/Gitlet.java:459-481 | a split pass for a file that neither the given side deleted while the head kept it nor the head deleted while the given side changed it changes nothing, flag included |
| MergeRules.SplitFoldKeeps | gitlet/gitlet/Gitlet.java:459-481 | in any order of the split files, a file the split loop does not act on keeps its working file and staged addition through the whole loop |
| Repository.MergeDeletes | gitlet/gitlet/Gitlet.java:459-464 | after a successful merge, a file unchanged by the head and deleted by the given side is gone from the working directory but stays in the merge commit's tree with the head's blob |
| Repository.MergeConflictText | gitlet/gitlet/Gitlet.java:465-483 | after a successful merge, a file deleted on one side and changed on the other holds the conflict text and the merge reports a conflict |
| Repository.MergeGivenOutcome | gitlet/gitlet/Gitlet.java:446-458 | after a successful merge, every given-head file but a deletion conflict holds the conflict text when all three sides differ, the given version when only the given side changed it, and its old content when the given side did not change it; the merge commit's tree records the blob of the new text |
| Repository.MergeLoops | gitlet/gitlet/Gitlet.java:442-481 | the loops exit only when the given head's id does not resolve; otherwise they leave the result of some iteration order of the two trees |
| Repository.Gitlet.MergePlan | gitlet/gitlet/Gitlet.java:435-444 | the split point is the first commit breadth-first from the head that the search from the given head visits; after a fast-forward the loops see the given head and the checked-out working directory |
| Repository.Gitlet.constructor | gitlet/gitlet/Gitlet.java:55-65 | the initial commit is stored and is the head, on branch master, recorded under its five-character abbreviation, with an empty stage |
| Repository.Gitlet.Advance | gitlet/gitlet/Gitlet.java:144-152 | the new commit is stored, becomes the head and the current branch's tip, is recorded under its abbreviation, and the stage is cleared |
| Repository.Gitlet.Add | gitlet/gitlet/Gitlet.java:99-107 | a file staged for removal is only un-removed; otherwise the add rule of Stage.add applies, a missing file being an error with nothing changed |
| Repository.Gitlet.CommitChanges | gitlet/gitlet/Gitlet.java:112-154 | an empty stage, then an empty message, fail with nothing changed; otherwise the new head has the head's tree plus the staged additions minus the staged removals, the old head as parent, the current branch, and only the current branch's entry moves; the blob store holds each staged blob under its id |
| Repository.Gitlet.CheckoutFile | gitlet/gitlet/Gitlet.java:161-197 | fails exactly when no known id matches; fails when the resolved commit lacks the file; otherwise only that working file changes, to the resolved commit's content |
| Repository.Gitlet.CheckoutBranch | gitlet/gitlet/Gitlet.java:202-238 | a missing or current branch, then an untracked file, fail with nothing changed; otherwise the branch head's files are written, files only the old head tracks are deleted, branch and head switch, the stage is cleared |
| Repository.Gitlet.Remove | gitlet/gitlet/Gitlet.java:278-296 | a file neither staged nor tracked fails with nothing changed; a staged-only file is unstaged; a tracked file is unstaged, staged for removal and deleted |
| Repository.Gitlet.Branch | gitlet/gitlet/Gitlet.java:360-369 | an existing name fails with nothing changed; otherwise exactly one entry, at the head's id, is added |
| Repository.Gitlet.RemoveBranch | gitlet/gitlet/Gitlet.java:374-386 | a missing or the current branch fails with nothing changed; otherwise exactly that entry is removed |
| Repository.Gitlet.Reset | gitlet/gitlet/Gitlet.java:391-427 | fails exactly when no known id matches; then fails on an untracked file with nothing changed; otherwise the head and the current branch's tip become the resolved commit, the working directory is reset over its present files, the stage is cleared |
| Repository.Gitlet.ResetTo | gitlet/gitlet/Gitlet.java:413-424 | the working directory is reset to the commit over its present files, the stage is cleared, the current branch and the head move to the commit |
| Repository.Gitlet.MergeCommit | gitlet/gitlet/Gitlet.java:493-522 | the new head has the head's tree plus the staged additions only (no removals), the head as parent, the given branch's tip as merged parent, message "Merged G into C."; the current branch moves to it, the blob store holds each staged blob under its id, and the stage is cleared |
| Repository.Gitlet.Merge | gitlet/gitlet/Gitlet.java:432-491 | a non-empty stage, a missing branch, the current branch, an untracked file fail in that order with nothing changed; a null split point crashes with nothing changed; once every check passes the result is Ok, the given loop's exit or that crash, and only those; on Ok the merge commit's parents, message and branch, the stored commit, the grown blob store, the fast-forward and ancestor cases, and a working directory and tree that some iteration order of the two loops produces |
| Repository.Gitlet.MergeChecked | gitlet/gitlet/Gitlet.java:435-491 | from the split point on: a null split crashes and nothing else does, the given loop's exit needs an unresolvable given id, otherwise the merge result of the plan |
| Repository.Gitlet.MergeFiles | gitlet/gitlet/Gitlet.java:442-491 | the two loops, then mergeCommit: on success the merge commit's tree and the working directory are a result of the loops for the plan |

## Left out

- `log`, `global-log`, `find` and `status` (Gitlet.java:241-355) only print; they are not modelled.
- `Main.java` (argument dispatch, directory set-up) and `UnitTest.java` are not part of this model.
- `initialize`, `storeCommit`, `update` and the file I/O behind `loadCommit`, `getCommit`, `getBlob`, `restrictedDelete` and `plainFilenamesIn` are replaced by the maps held in the `Gitlet` object; persistence is not modelled.
- `Stage.stageRemove(String)` (Stage.java:57-60) is never called by the commands and is not modelled.
- SHA-1 and Java serialization are an uninterpreted function, so collisions are neither ruled out nor exhibited.
- `Commit.setTime`, `getTimeAsString` and `new Date()`: dates are integer parameters; the calendar and the clock are not modelled.
- Getters of `Blob` and `Commit` are the fields of the datatypes.
- `getBlobs` returns the commit's live map, so `commit` and `mergeCommit` change the old head's map in place. That object is dropped right after, so this aliasing is not visible; the commits are values here.
- The merge loops read `_head.getBlobs()` while `add` and `remove` update the stage; the model feeds each pass's working state into the next, which is the same thing for this single-threaded code.
- Output lines ("Current branch fast-forwarded.", "Encountered a merge conflict.", the ancestor message) are returned as the flags `fastForwarded`, `conflict` and `givenIsAncestor`.
- Repository.Gitlet.Merge: on the exit inside the given-files loop the contract states that the given head's id did not resolve, not the partial working directory and stage left behind.
- MergeRules.SplitFoldConflictCwd: states the working file after the whole loop, not the staged entry, because an earlier pass can stage a removal under another file's name (`rm` files the blob under the blob's own filename), which changes what `add` does for that name.
- Repository.Gitlet.MergeFiles: as Merge, the partial state at the mid-loop exit is not stated.
- Repository.MergeLoops: the working state returned at the mid-loop exit is not stated.
- Repository.Gitlet.Merge: the result is stated for some iteration order of the two trees, since HashMap order is not modelled; the merge commit's id, time, the abbreviation table entry and which blob each new store entry holds follow from Repository.Gitlet.MergeCommit and are not repeated (only that the store grows).
- History.Traverse: that the visited list can hold a commit twice is shown for one step (History.StepRequeues), not for a whole search over a concrete history.
