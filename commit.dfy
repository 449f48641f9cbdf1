/**
 * Commit.java: a snapshot of the tracked files (filename to blob id) with
 * links to its parent and, for merge commits, to its merged-in parent.
 */
module Commits {
  import opened Wrappers
  import opened Blobs
  import JavaLang

  /** Name of the branch the repository starts on. */
  const InitialBranch := "master"
  const InitialMessage := "initial commit"

  /**
   * `time` is the value of the commit's Date, supplied by the caller: the
   * clock and the Calendar arithmetic behind it are not modelled.
   */
  datatype Commit = Commit(
    message: string,
    time: int,
    blobs: map<string, Id>,
    parent: Option<Id>,
    mergedParent: Option<Id>,
    id: Id,
    branch: string)

  function SerializeOption(x: Option<Id>): Serialized {
    match x
    case None => SNull
    case Some(s) => SString(s)
  }

  /**
   * Commit.hash as the constructors call it: the list of the serialized
   * message, parent, `_id` and branch. Both constructors call it before
   * `_id` is assigned, so the third entry is always null; the tree, the
   * time and the merged parent never reach the digest.
   */
  function CommitDigest(sha1: Sha1, message: string, parent: Option<Id>, branch: string): Id {
    sha1(SList([SString(message), SerializeOption(parent), SerializeOption(None), SString(branch)]))
  }

  /** The initial-commit constructor; `epoch` stands for the Date that setTime builds. */
  function InitialCommit(sha1: Sha1, epoch: int): (c: Commit)
    ensures c.message == "initial commit" && c.blobs == map[] && c.branch == "master"
    ensures c.parent == None && c.mergedParent == None && c.time == epoch
    ensures c.id == sha1(SList([SString("initial commit"), SNull, SNull, SString("master")]))
  {
    Commit(InitialMessage, epoch, map[], None, None,
           CommitDigest(sha1, InitialMessage, None, InitialBranch), InitialBranch)
  }

  /** The regular constructor; `now` stands for `new Date()`. */
  function NewCommit(sha1: Sha1, message: string, now: int, blobs: map<string, Id>,
                     parent: Option<Id>, branch: string): (c: Commit)
    ensures c.message == message && c.time == now && c.blobs == blobs
    ensures c.parent == parent && c.mergedParent == None && c.branch == branch
    ensures c.id == sha1(SList([SString(message), SerializeOption(parent), SNull, SString(branch)]))
  {
    Commit(message, now, blobs, parent, None, CommitDigest(sha1, message, parent, branch), branch)
  }

  /** Commit.setMergedParent: only `_mergedParent` changes; the id was fixed at construction. */
  function SetMergedParent(c: Commit, mergedParent: Option<Id>): (r: Commit)
    ensures r.mergedParent == mergedParent && r.id == c.id
    ensures r.message == c.message && r.time == c.time && r.blobs == c.blobs
    ensures r.parent == c.parent && r.branch == c.branch
  {
    c.(mergedParent := mergedParent)
  }

  /**
   * The id of a new commit is fixed by message, parent and branch alone: two
   * commits that differ only in their trees, their times or their merged
   * parents share one id (and so one file in the object store).
   */
  lemma CommitIdIgnoresTreeAndTime(sha1: Sha1, message: string, parent: Option<Id>, branch: string,
                                   t1: int, b1: map<string, Id>, t2: int, b2: map<string, Id>,
                                   m: Option<Id>)
    ensures NewCommit(sha1, message, t1, b1, parent, branch).id
         == SetMergedParent(NewCommit(sha1, message, t2, b2, parent, branch), m).id
  {
  }

  /** Commit.contains: the file is a key of the commit's tree. */
  predicate ContainsFile(c: Commit, filename: string) {
    filename in c.blobs
  }

  /**
   * Commit.getBlob: null when the commit does not track the file, otherwise
   * the blob read from the object store under the tracked id (the read needs
   * that object to exist).
   */
  function GetBlob(c: Commit, filename: string, store: map<Id, Blob>): (r: Option<Blob>)
    requires filename in c.blobs ==> c.blobs[filename] in store
    ensures r.None? <==> !ContainsFile(c, filename)
    ensures r.Some? ==> r.value == store[c.blobs[filename]]
  {
    if filename !in c.blobs then None else Some(store[c.blobs[filename]])
  }

  /** The ids a commit points to: its parent and its merged-in parent, when present. */
  function Parents(c: Commit): (ps: set<Id>)
    ensures forall p :: p in ps <==> Some(p) == c.parent || Some(p) == c.mergedParent
  {
    (if c.parent.Some? then {c.parent.value} else {})
      + (if c.mergedParent.Some? then {c.mergedParent.value} else {})
  }

  /** The argument of Commit.equals: a Commit or some object of another class. */
  datatype CommitOrOther = IsCommit(commit: Commit) | NotCommit

  /** Commit.equals: the same object, or another Commit with the same id. */
  function Equals(c: Commit, o: CommitOrOther): (r: bool)
    ensures o.NotCommit? ==> !r
    ensures o.IsCommit? ==> (r <==> o.commit.id == c.id)
  {
    if o == IsCommit(c) then true
    else if !o.IsCommit? then false
    else c.id == o.commit.id
  }

  /** Commit.hashCode: the hash code of the id string. */
  function HashCode(c: Commit): (h: int)
    ensures JavaLang.IsInt32(h)
  {
    IdHashCode(c.id)
  }

  /** Equal commits have equal hash codes. */
  lemma EqualsImpliesSameHashCode(a: Commit, b: Commit)
    requires Equals(a, IsCommit(b))
    ensures HashCode(a) == HashCode(b)
  {
  }
}
