/**
 * The loops of Gitlet.java that walk a HashMap or the working directory:
 * id resolution against the abbreviation table, the untracked-file check,
 * building a commit's tree from the stage, and writing or deleting working
 * files for checkout and reset. Each loop takes entries in an arbitrary
 * order, as HashMap iteration does.
 */
module Trees {
  import opened Wrappers
  import opened Blobs
  import opened Commits
  import JavaLang

  /** `_commits.containsValue(s)`. */
  predicate KnownId(commits: map<string, Id>, s: string) {
    exists a | a in commits :: commits[a] == s
  }

  /**
   * Whether checkout and reset accept `id` for `query`: a query shorter than
   * 40 characters matches any id that contains it anywhere, not necessarily
   * as a prefix; a longer one must be the id itself.
   */
  predicate Matches(query: string, id: Id) {
    if |query| < IdLength then JavaLang.Contains(id, query) else id == query
  }

  /** No known id matches the query. */
  predicate Unresolvable(commits: map<string, Id>, query: string) {
    forall a | a in commits :: !Matches(query, commits[a])
  }

  /**
   * The id resolution at the start of checkout and reset: the first known
   * id, in the table's iteration order, that matches the query.
   */
  method ResolveId(commits: map<string, Id>, query: string) returns (r: Option<Id>)
    ensures r.Some? ==> KnownId(commits, r.value) && Matches(query, r.value)
    ensures r.None? <==> Unresolvable(commits, query)
  {
    if |query| < IdLength {
      var remaining := commits.Values;
      while remaining != {}
        invariant remaining <= commits.Values
        invariant forall v | v in commits.Values - remaining :: !JavaLang.Contains(v, query)
        decreases |remaining|
      {
        var id :| id in remaining;
        if JavaLang.Contains(id, query) {
          return Some(id);
        }
        remaining := remaining - {id};
      }
      return None;
    }
    if KnownId(commits, query) {
      var a :| a in commits && commits[a] == query;
      return Some(commits[a]);
    }
    return None;
  }

  /** Every known id is found by any prefix of it, so an abbreviation git would accept resolves. */
  lemma PrefixResolves(commits: map<string, Id>, a: string, k: nat)
    requires a in commits && k <= IdLength
    ensures !Unresolvable(commits, commits[a][..k])
  {
    JavaLang.ContainsPrefix(commits[a], k);
    if k == IdLength {
      assert commits[a][..k] == commits[a];
    }
  }

  /** Gitlet.isTracked: the head tracks the file or it is staged for addition. */
  predicate Tracked(head: Commit, stageAdd: map<string, Blob>, f: string) {
    f in head.blobs || f in stageAdd
  }

  /** No file of the working directory is untracked. */
  predicate NoUntracked(files: set<string>, head: Commit, stageAdd: map<string, Blob>) {
    forall f | f in files :: Tracked(head, stageAdd, f)
  }

  /** Gitlet.checkUntracked over the working directory's files: true when it lets the command go on. */
  method AllTracked(files: set<string>, head: Commit, stageAdd: map<string, Blob>) returns (ok: bool)
    ensures ok <==> NoUntracked(files, head, stageAdd)
  {
    var remaining := files;
    while remaining != {}
      invariant remaining <= files
      invariant forall f | f in files - remaining :: Tracked(head, stageAdd, f)
      decreases |remaining|
    {
      var f :| f in remaining;
      if !Tracked(head, stageAdd, f) {
        return false;
      }
      remaining := remaining - {f};
    }
    return true;
  }

  /** The filename-to-id entries a map of staged blobs contributes to a tree. */
  function StagedIds(adds: map<string, Blob>): map<string, Id> {
    map f | f in adds :: adds[f].id
  }

  /** The tree commit builds: the head's tree, then every staged addition, minus every staged removal. */
  function CommitTree(tree: map<string, Id>, adds: map<string, Blob>, rems: map<string, Blob>): map<string, Id> {
    (tree + StagedIds(adds)) - rems.Keys
  }

  /**
   * File by file: a staged removal wins, then a staged addition, and any
   * other file keeps the head's blob.
   */
  lemma CommitTreeAt(tree: map<string, Id>, adds: map<string, Blob>, rems: map<string, Blob>, f: string)
    ensures var t := CommitTree(tree, adds, rems);
            (f in rems ==> f !in t)
            && (f !in rems && f in adds ==> f in t && t[f] == adds[f].id)
            && (f !in rems && f !in adds ==> (f in t <==> f in tree) && (f in tree ==> t[f] == tree[f]))
  {
  }

  /** The tree entries of the staged additions in `done`. */
  function AddedPart(adds: map<string, Blob>, done: set<string>): map<string, Id> {
    map f | f in done && f in adds :: adds[f].id
  }

  /** The blob ids of the staged additions in `done`. */
  function AddedIds(adds: map<string, Blob>, done: set<string>): set<Id> {
    set f | f in done && f in adds :: adds[f].id
  }

  /** `id` is stored as one of the staged blobs of `done` that carry that id. */
  predicate StagedFiled(bf: map<Id, Blob>, adds: map<string, Blob>, done: set<string>, id: Id) {
    id in bf && exists f | f in done && f in adds :: adds[f].id == id && bf[id] == adds[f]
  }

  /**
   * The blob store `bf` after the staged blobs of `done` were written over
   * `blobFiles`: the ids of those blobs are added and each holds one of the
   * staged blobs with that id (a later put overwrites an earlier one); every
   * other old entry keeps its blob.
   */
  predicate StoreAfter(bf: map<Id, Blob>, blobFiles: map<Id, Blob>, adds: map<string, Blob>, done: set<string>) {
    && bf.Keys == blobFiles.Keys + AddedIds(adds, done)
    && (forall id | id in AddedIds(adds, done) :: StagedFiled(bf, adds, done, id))
    && (forall id | id in blobFiles && id !in AddedIds(adds, done) :: bf[id] == blobFiles[id])
  }

  lemma AddedPartBounds(tree: map<string, Id>, adds: map<string, Blob>, blobFiles: map<Id, Blob>)
    ensures tree == tree + AddedPart(adds, {})
    ensures StoreAfter(blobFiles, blobFiles, adds, {})
    ensures AddedPart(adds, adds.Keys) == StagedIds(adds)
  {
    assert AddedPart(adds, {}) == map[];
    assert AddedIds(adds, {}) == {};
  }

  lemma AddedStep(tree: map<string, Id>, adds: map<string, Blob>, done: set<string>, f: string)
    requires f in adds
    ensures (tree + AddedPart(adds, done))[f := adds[f].id] == tree + AddedPart(adds, done + {f})
  {
    var l, r := (tree + AddedPart(adds, done))[f := adds[f].id], tree + AddedPart(adds, done + {f});
    assert l.Keys == r.Keys;
    forall k | k in l ensures l[k] == r[k] {
    }
  }

  lemma IdsStep(adds: map<string, Blob>, done: set<string>, f: string)
    requires f in adds
    ensures AddedIds(adds, done) + {adds[f].id} == AddedIds(adds, done + {f})
  {
  }

  /** Writing one more staged blob keeps the store description, with `f` counted as done. */
  lemma WriteStep(bf: map<Id, Blob>, blobFiles: map<Id, Blob>, adds: map<string, Blob>, done: set<string>, f: string)
    requires f in adds && f !in done && StoreAfter(bf, blobFiles, adds, done)
    ensures StoreAfter(bf[adds[f].id := adds[f]], blobFiles, adds, done + {f})
  {
    var b := adds[f];
    var bf' := bf[b.id := b];
    IdsStep(adds, done, f);
    KeysStep(bf, b);
    forall id | id in AddedIds(adds, done + {f}) ensures StagedFiled(bf', adds, done + {f}, id) {
      if id == b.id {
        assert f in done + {f} && adds[f].id == id && bf'[id] == adds[f];
      } else {
        assert id in AddedIds(adds, done);
        assert StagedFiled(bf, adds, done, id);
        var g :| g in done && g in adds && adds[g].id == id && bf[id] == adds[g];
        assert g in done + {f} && bf'[id] == adds[g];
      }
    }
    forall id | id in blobFiles && id !in AddedIds(adds, done + {f}) ensures bf'[id] == blobFiles[id] {
      assert id != b.id && id !in AddedIds(adds, done);
    }
  }

  lemma KeysStep(bf: map<Id, Blob>, b: Blob)
    ensures bf[b.id := b].Keys == bf.Keys + {b.id}
  {
  }

  /**
   * The staged-additions loop of commit and mergeCommit: put each staged
   * blob's id into the tree and write the blob into the blob store.
   */
  method ApplyAdds(tree: map<string, Id>, adds: map<string, Blob>, blobFiles: map<Id, Blob>)
    returns (t: map<string, Id>, bf: map<Id, Blob>)
    ensures t == tree + StagedIds(adds)
    ensures bf.Keys == blobFiles.Keys + AddedIds(adds, adds.Keys)
    ensures forall id | id in AddedIds(adds, adds.Keys) ::
              exists f | f in adds :: adds[f].id == id && bf[id] == adds[f]
    ensures forall id | id in blobFiles && id !in AddedIds(adds, adds.Keys) :: bf[id] == blobFiles[id]
    ensures StoreAfter(bf, blobFiles, adds, adds.Keys)
  {
    t, bf := tree, blobFiles;
    var done: set<string> := {};
    AddedPartBounds(tree, adds, blobFiles);
    while done != adds.Keys
      invariant done <= adds.Keys
      invariant t == tree + AddedPart(adds, done)
      invariant StoreAfter(bf, blobFiles, adds, done)
      decreases |adds.Keys - done|
    {
      var f :| f in adds.Keys - done;
      AddedStep(tree, adds, done, f);
      WriteStep(bf, blobFiles, adds, done, f);
      bf := bf[adds[f].id := adds[f]];
      t := t[f := adds[f].id];
      done := done + {f};
    }
  }

  /** The staged-removals loop of commit: drop each removed filename from the tree. */
  method ApplyRemovals(tree: map<string, Id>, rems: map<string, Blob>) returns (t: map<string, Id>)
    ensures t == tree - rems.Keys
  {
    t := tree;
    var done: set<string> := {};
    while done != rems.Keys
      invariant done <= rems.Keys
      invariant t == tree - done
      decreases |rems.Keys - done|
    {
      var f :| f in rems.Keys - done;
      t := t - {f};
      done := done + {f};
    }
  }

  predicate TreeStored(tree: map<string, Id>, blobFiles: map<Id, Blob>) {
    forall f | f in tree :: tree[f] in blobFiles
  }

  /** The working files a tree stands for. */
  function TreeContents(tree: map<string, Id>, blobFiles: map<Id, Blob>): map<string, string>
    requires TreeStored(tree, blobFiles)
  {
    map f | f in tree :: blobFiles[tree[f]].content
  }

  /** The first loop of checkoutBranch: write every file of the branch head into the working directory. */
  method WriteTree(cwd: map<string, string>, tree: map<string, Id>, blobFiles: map<Id, Blob>)
    returns (c: map<string, string>)
    requires TreeStored(tree, blobFiles)
    ensures c == cwd + TreeContents(tree, blobFiles)
  {
    c := cwd;
    var done: set<string> := {};
    while done != tree.Keys
      invariant done <= tree.Keys
      invariant c == cwd + map f | f in done :: blobFiles[tree[f]].content
      decreases |tree.Keys - done|
    {
      var f :| f in tree.Keys - done;
      c := c[f := blobFiles[tree[f]].content];
      done := done + {f};
    }
  }

  /** The second loop of checkoutBranch: delete the files the old head tracks and the new one does not. */
  method DeleteMissing(cwd: map<string, string>, oldTree: map<string, Id>, newTree: map<string, Id>)
    returns (c: map<string, string>)
    ensures c == cwd - (oldTree.Keys - newTree.Keys)
  {
    c := cwd;
    var done: set<string> := {};
    while done != oldTree.Keys
      invariant done <= oldTree.Keys
      invariant c == cwd - (done - newTree.Keys)
      decreases |oldTree.Keys - done|
    {
      var f :| f in oldTree.Keys - done;
      if f !in newTree {
        c := c - {f};
      }
      done := done + {f};
    }
  }

  /** The working files reset leaves: those present in `files` and tracked by the tree, at the tree's content. */
  function ResetContents(files: set<string>, tree: map<string, Id>, blobFiles: map<Id, Blob>): map<string, string>
    requires TreeStored(tree, blobFiles)
  {
    map f | f in files && f in tree :: blobFiles[tree[f]].content
  }

  lemma ResetStep(cwd: map<string, string>, tree: map<string, Id>, blobFiles: map<Id, Blob>,
                  done: set<string>, f: string)
    requires TreeStored(tree, blobFiles) && f in cwd && f !in done
    ensures var c := (cwd - done) + ResetContents(done, tree, blobFiles);
            var c' := (cwd - (done + {f})) + ResetContents(done + {f}, tree, blobFiles);
            (f !in tree ==> c - {f} == c') && (f in tree ==> c[f := blobFiles[tree[f]].content] == c')
  {
    var c := (cwd - done) + ResetContents(done, tree, blobFiles);
    var c' := (cwd - (done + {f})) + ResetContents(done + {f}, tree, blobFiles);
    if f !in tree {
      assert (c - {f}).Keys == c'.Keys;
    } else {
      assert c[f := blobFiles[tree[f]].content].Keys == c'.Keys;
    }
  }

  lemma ResetBounds(cwd: map<string, string>, tree: map<string, Id>, blobFiles: map<Id, Blob>)
    requires TreeStored(tree, blobFiles)
    ensures cwd == (cwd - {}) + ResetContents({}, tree, blobFiles)
    ensures (cwd - cwd.Keys) + ResetContents(cwd.Keys, tree, blobFiles) == ResetContents(cwd.Keys, tree, blobFiles)
  {
    assert cwd - {} == cwd;
    assert ResetContents({}, tree, blobFiles) == map[];
    assert cwd - cwd.Keys == map[];
  }

  /**
   * The loop of reset over the files present in the working directory:
   * files the commit lacks are deleted, the others are checked out from it.
   * Files of the commit that are absent from the directory are not created.
   */
  method ResetTree(cwd: map<string, string>, tree: map<string, Id>, blobFiles: map<Id, Blob>)
    returns (c: map<string, string>)
    requires TreeStored(tree, blobFiles)
    ensures c == ResetContents(cwd.Keys, tree, blobFiles)
  {
    c := cwd;
    var done: set<string> := {};
    ResetBounds(cwd, tree, blobFiles);
    while done != cwd.Keys
      invariant done <= cwd.Keys
      invariant c == (cwd - done) + ResetContents(done, tree, blobFiles)
      decreases |cwd.Keys - done|
    {
      var f :| f in cwd.Keys - done;
      ResetStep(cwd, tree, blobFiles, done, f);
      if f !in tree {
        c := c - {f};
      } else {
        c := c[f := blobFiles[tree[f]].content];
      }
      done := done + {f};
    }
  }

  /** After reset, a file is in the working directory iff it was there and the commit tracks it. */
  lemma ResetContentsAt(cwd: map<string, string>, tree: map<string, Id>, blobFiles: map<Id, Blob>, f: string)
    requires TreeStored(tree, blobFiles)
    ensures var c := ResetContents(cwd.Keys, tree, blobFiles);
            (f in c <==> f in cwd && f in tree) && (f in c ==> c[f] == blobFiles[tree[f]].content)
  {
  }

  /** The tree a commit stores after the staged additions were written keeps every blob stored. */
  lemma TreeStoredAfterAdds(tree: map<string, Id>, adds: map<string, Blob>, rems: set<string>,
                            blobFiles: map<Id, Blob>, bf: map<Id, Blob>)
    requires TreeStored(tree, blobFiles)
    requires bf.Keys == blobFiles.Keys + AddedIds(adds, adds.Keys)
    ensures TreeStored((tree + StagedIds(adds)) - rems, bf)
  {
    forall f | f in (tree + StagedIds(adds)) - rems ensures ((tree + StagedIds(adds)) - rems)[f] in bf {
      if f in adds {
        assert adds[f].id in AddedIds(adds, adds.Keys);
      }
    }
  }

  /**
   * add, then commit, then checkout: a file staged for addition and not for
   * removal is in the new commit's tree, and the blob store holds its staged
   * content under the tracked id, provided no other staged blob with the
   * same id has different content (a digest collision).
   */
  lemma CommittedContent(tree: map<string, Id>, adds: map<string, Blob>, rems: map<string, Blob>,
                         blobFiles: map<Id, Blob>, bf: map<Id, Blob>, f: string)
    requires StoreAfter(bf, blobFiles, adds, adds.Keys) && f in adds && f !in rems
    requires forall g | g in adds && adds[g].id == adds[f].id :: adds[g].content == adds[f].content
    ensures var t := CommitTree(tree, adds, rems);
            f in t && t[f] in bf && bf[t[f]].content == adds[f].content
  {
    CommitTreeAt(tree, adds, rems, f);
    assert adds[f].id in AddedIds(adds, adds.Keys);
    assert StagedFiled(bf, adds, adds.Keys, adds[f].id);
  }

  /** A tree stored in a blob store stays stored when the store only grows. */
  lemma TreeStoredGrow(tree: map<string, Id>, blobFiles: map<Id, Blob>, bf: map<Id, Blob>)
    requires TreeStored(tree, blobFiles) && blobFiles.Keys <= bf.Keys
    ensures TreeStored(tree, bf)
  {
  }

  predicate Distinct(order: seq<string>) {
    forall i, j | 0 <= i < j < |order| :: order[i] != order[j]
  }

  /** `order` hands out every element of `s` exactly once. */
  predicate Enumerates(order: seq<string>, s: set<string>) {
    Distinct(order) && (forall i | 0 <= i < |order| :: order[i] in s) && (forall f | f in s :: f in order)
  }

  /** The order in which a HashMap's keySet hands out its keys: some order, each key once. */
  method Enumerate(s: set<string>) returns (order: seq<string>)
    ensures Enumerates(order, s)
  {
    order := [];
    var remaining := s;
    while remaining != {}
      invariant remaining <= s
      invariant Distinct(order)
      invariant forall i | 0 <= i < |order| :: order[i] in s && order[i] !in remaining
      invariant forall f | f in s :: f in order || f in remaining
      decreases |remaining|
    {
      var f :| f in remaining;
      order := order + [f];
      remaining := remaining - {f};
    }
  }
}
