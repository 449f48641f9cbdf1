/**
 * Stage.java: the pending change set, two maps from filename to Blob, one
 * for files staged for addition and one for files staged for removal.
 */
module Staging {
  import opened Wrappers
  import opened Blobs
  import opened Commits

  /** The add rule of Stage.add, once the new blob has been built from the working file. */
  function AddRule(stageAdd: map<string, Blob>, filename: string, newBlob: Blob,
                   headBlobs: map<string, Id>): map<string, Blob>
  {
    if filename !in headBlobs then stageAdd[filename := newBlob]
    else if newBlob.id == headBlobs[filename] then stageAdd - {filename}
    else stageAdd[filename := newBlob]
  }

  /** Staging an unchanged file drops it; staging it again is then a no-op. */
  lemma AddRuleIdempotent(stageAdd: map<string, Blob>, filename: string, newBlob: Blob,
                          headBlobs: map<string, Id>)
    ensures AddRule(AddRule(stageAdd, filename, newBlob, headBlobs), filename, newBlob, headBlobs)
         == AddRule(stageAdd, filename, newBlob, headBlobs)
  {
  }

  /** Stage.add fails only because the working file is missing. */
  datatype AddOutcome = Added | FileDoesNotExist

  class Stage {
    var stageAdd: map<string, Blob>
    var stageRemoval: map<string, Blob>

    constructor ()
      ensures stageAdd == map[] && stageRemoval == map[]
    {
      stageAdd := map[];
      stageRemoval := map[];
    }

    /**
     * Stage.add(filename, head), with the working directory `cwd` as a map
     * from filename to content. The removal map is never touched.
     */
    method Add(filename: string, head: Commit, cwd: map<string, string>, sha1: Sha1)
      returns (r: AddOutcome)
      modifies this
      ensures stageRemoval == old(stageRemoval)
      ensures r == FileDoesNotExist <==> filename !in cwd
      ensures r == FileDoesNotExist ==> stageAdd == old(stageAdd)
      ensures r == Added && filename !in head.blobs ==>
                stageAdd == old(stageAdd)[filename := NewBlob(sha1, filename, cwd[filename])]
      ensures r == Added && filename in head.blobs
              && NewBlob(sha1, filename, cwd[filename]).id == head.blobs[filename] ==>
                stageAdd == old(stageAdd) - {filename}
      ensures r == Added && filename in head.blobs
              && NewBlob(sha1, filename, cwd[filename]).id != head.blobs[filename] ==>
                stageAdd == old(stageAdd)[filename := NewBlob(sha1, filename, cwd[filename])]
      ensures r == Added ==>
                stageAdd == AddRule(old(stageAdd), filename, NewBlob(sha1, filename, cwd[filename]), head.blobs)
    {
      if filename !in cwd {
        return FileDoesNotExist;
      }
      var newBlob := NewBlob(sha1, filename, cwd[filename]);
      var existBlobs := head.blobs;
      if filename !in existBlobs {
        stageAdd := stageAdd[filename := newBlob];
      } else {
        if newBlob.id == existBlobs[filename] {
          stageAdd := stageAdd - {filename};
        } else {
          stageAdd := stageAdd[filename := newBlob];
        }
      }
      return Added;
    }

    /** Stage.stageRemove(Blob): record the blob under its own filename. */
    method StageRemove(b: Blob)
      modifies this
      ensures stageRemoval == old(stageRemoval)[b.filename := b]
      ensures stageAdd == old(stageAdd)
    {
      stageRemoval := stageRemoval[b.filename := b];
    }

    /** Stage.unstage: drop a pending addition. */
    method Unstage(filename: string)
      modifies this
      ensures stageAdd == old(stageAdd) - {filename}
      ensures stageRemoval == old(stageRemoval)
    {
      stageAdd := stageAdd - {filename};
    }

    /** Stage.unremove: drop a pending removal. */
    method Unremove(filename: string)
      modifies this
      ensures stageRemoval == old(stageRemoval) - {filename}
      ensures stageAdd == old(stageAdd)
    {
      stageRemoval := stageRemoval - {filename};
    }

    /** Stage.getBlob: the pending addition if any, else the pending removal, else null. */
    function GetBlob(filename: string): (r: Option<Blob>)
      reads this
      ensures filename in stageAdd ==> r == Some(stageAdd[filename])
      ensures filename !in stageAdd && filename in stageRemoval ==> r == Some(stageRemoval[filename])
      ensures r == None <==> filename !in stageAdd && filename !in stageRemoval
    {
      if filename in stageAdd then Some(stageAdd[filename])
      else if filename in stageRemoval then Some(stageRemoval[filename])
      else None
    }

    /** Stage.isEmpty: nothing staged for addition and nothing for removal. */
    predicate IsEmpty()
      reads this
    {
      |stageAdd| == 0 && |stageRemoval| == 0
    }

    /** Stage.contains consults the addition map only. */
    predicate Contains(filename: string)
      reads this
    {
      filename in stageAdd
    }

    /** Stage.clear empties both maps. */
    method Clear()
      modifies this
      ensures stageAdd == map[] && stageRemoval == map[]
      ensures IsEmpty()
    {
      stageAdd := map[];
      stageRemoval := map[];
    }
  }

  /** isEmpty holds exactly when both maps are the empty map. */
  lemma IsEmptyIffNoEntries(s: Stage)
    ensures s.IsEmpty() <==> s.stageAdd == map[] && s.stageRemoval == map[]
  {
    if s.IsEmpty() {
      assert s.stageAdd.Keys == {};
      assert s.stageRemoval.Keys == {};
    }
  }
}
