/**
 * The per-file part of Gitlet.merge: the given-files loop (with
 * checkConflict1), the split-files loop, doConflict and the conflict text.
 * Each loop pass is a pure step on the working tree and the stage; the
 * loops are folds of those steps over the order in which the HashMap
 * hands out its keys.
 */
module MergeRules {
  import opened Wrappers
  import opened Blobs
  import opened Commits
  import opened Staging
  import opened Trees

  /** The part of the world a merge pass touches: the working directory and both stage maps. */
  datatype Work = Work(cwd: map<string, string>, add: map<string, Blob>, rem: map<string, Blob>)

  /**
   * What the loops read but never change: the hash, the current head (after
   * a fast-forward, the given head), the given head, the split point, the
   * blob store, and whether `checkout(givenHead.getID(), f)` can resolve the
   * given head's id through the abbreviation table.
   */
  datatype MergeCtx = MergeCtx(sha1: Sha1, head: Commit, given: Commit, split: Commit,
                               blobFiles: map<Id, Blob>, givenResolvable: bool)

  /** A working state together with the `conflict` flag. */
  datatype Flagged = Flagged(w: Work, conflict: bool)

  /** The state after the given-files loop; `halted` when checkout called System.exit. */
  datatype Pass = Pass(w: Work, conflict: bool, halted: bool)

  predicate CtxOk(x: MergeCtx) {
    TreeStored(x.head.blobs, x.blobFiles) && TreeStored(x.given.blobs, x.blobFiles)
  }

  function Lookup<V>(m: map<string, V>, f: string): Option<V> {
    if f in m then Some(m[f]) else None
  }

  const ConflictHead := "<<<<<<< HEAD\n"
  const ConflictSep := "=======\n"
  const ConflictEnd := ">>>>>>>\n"

  /** The file doConflict writes. */
  function ConflictText(curr: string, given: string): string {
    ConflictHead + curr + ConflictSep + given + ConflictEnd
  }

  /** The two sides can be read back out of the conflict text at the offsets the markers fix. */
  lemma ConflictTextDecode(curr: string, given: string)
    ensures var t := ConflictText(curr, given);
            |t| == |curr| + |given| + 29
            && t[..13] == ConflictHead
            && t[13..13 + |curr|] == curr
            && t[13 + |curr|..21 + |curr|] == ConflictSep
            && t[21 + |curr|..|t| - 8] == given
            && t[|t| - 8..] == ConflictEnd
  {
    var t := ConflictText(curr, given);
    assert t == ConflictHead + (curr + (ConflictSep + (given + ConflictEnd)));
  }

  /** The content a side of the merge contributes: the blob's content, or "" when it lacks the file. */
  function ContentOf(c: Commit, f: string, blobFiles: map<Id, Blob>): (s: string)
    requires TreeStored(c.blobs, blobFiles)
    ensures f !in c.blobs ==> s == ""
    ensures f in c.blobs ==> s == blobFiles[c.blobs[f]].content
  {
    match GetBlob(c, f, blobFiles)
    case None => ""
    case Some(b) => b.content
  }

  /** Gitlet.add on a file known to be in the working directory. */
  function AddOf(sha1: Sha1, head: Commit, w: Work, f: string): Work
    requires f in w.cwd
  {
    if f in w.rem then w.(rem := w.rem - {f})
    else w.(add := AddRule(w.add, f, NewBlob(sha1, f, w.cwd[f]), head.blobs))
  }

  /**
   * Gitlet.remove on a file the head tracks: unstage it, stage the head's
   * blob for removal under that blob's own filename, delete the working file.
   */
  function RemoveOf(head: Commit, blobFiles: map<Id, Blob>, w: Work, f: string): Work
    requires TreeStored(head.blobs, blobFiles) && f in head.blobs
  {
    var w1 := if f in w.add then w.(add := w.add - {f}) else w;
    var b := blobFiles[head.blobs[f]];
    w1.(rem := w1.rem[b.filename := b], cwd := w1.cwd - {f})
  }

  /** Gitlet.doConflict: write the conflict text over the file and add it. */
  function DoConflict(x: MergeCtx, w: Work, f: string): Work
    requires CtxOk(x)
  {
    var text := ConflictText(ContentOf(x.head, f, x.blobFiles), ContentOf(x.given, f, x.blobFiles));
    AddOf(x.sha1, x.head, w.(cwd := w.cwd[f := text]), f)
  }

  /** checkout(givenHead.getID(), f) once the id has resolved. */
  function CheckoutGiven(x: MergeCtx, w: Work, f: string): Work
    requires CtxOk(x) && f in x.given.blobs
  {
    w.(cwd := w.cwd[f := x.blobFiles[x.given.blobs[f]].content])
  }

  /** The given-files loop checks a file out when the split lacks it or holds another blob. */
  predicate NeedsCheckout(x: MergeCtx, f: string)
    requires f in x.given.blobs
  {
    f !in x.split.blobs || x.given.blobs[f] != x.split.blobs[f]
  }

  /** Gitlet.checkConflict1, with the two doConflict calls it may make. */
  function CheckConflict1(x: MergeCtx, w: Work, f: string): Flagged
    requires CtxOk(x) && f in x.given.blobs
  {
    var h, s, g := x.head.blobs, x.split.blobs, x.given.blobs;
    var first := if f in h && f in s && h[f] != g[f] && h[f] != s[f] && s[f] != g[f]
                 then Flagged(DoConflict(x, w, f), true) else Flagged(w, false);
    if f in h && f !in s && h[f] != g[f] then Flagged(DoConflict(x, first.w, f), true)
    else if f !in h && f in s && s[f] != g[f] then Flagged(DoConflict(x, first.w, f), true)
    else first
  }

  /** One pass of the given-files loop, when it does not stop the program. */
  function GivenStep(x: MergeCtx, w: Work, f: string): Flagged
    requires CtxOk(x) && f in x.given.blobs
    requires x.givenResolvable || !NeedsCheckout(x, f)
  {
    var w1 := if NeedsCheckout(x, f) then AddOf(x.sha1, x.head, CheckoutGiven(x, w, f), f) else w;
    CheckConflict1(x, w1, f)
  }

  predicate AllIn(order: seq<string>, m: map<string, Id>) {
    forall i | 0 <= i < |order| :: order[i] in m
  }

  /** The given-files loop over `order`; `conflict` is overwritten by every pass. */
  function GivenFold(x: MergeCtx, w: Work, conflict: bool, order: seq<string>): Pass
    requires CtxOk(x) && AllIn(order, x.given.blobs)
    decreases |order|
  {
    if order == [] then Pass(w, conflict, false)
    else if NeedsCheckout(x, order[0]) && !x.givenResolvable then Pass(w, conflict, true)
    else
      var s := GivenStep(x, w, order[0]);
      GivenFold(x, s.w, s.conflict, order[1..])
  }

  /** One pass of the split-files loop; `conflict` is only ever set to true here. */
  function SplitStep(x: MergeCtx, w: Work, conflict: bool, f: string): Flagged
    requires CtxOk(x) && f in x.split.blobs
  {
    var h, s, g := x.head.blobs, x.split.blobs, x.given.blobs;
    var w1 := if f in h && h[f] == s[f] && f !in g then RemoveOf(x.head, x.blobFiles, w, f) else w;
    var second := if f in h && h[f] != s[f] && f !in g then Flagged(DoConflict(x, w1, f), true)
                  else if f in g && g[f] != s[f] && f !in h then Flagged(DoConflict(x, w1, f), true)
                  else Flagged(w1, conflict);
    if f in h && f !in g && h[f] != s[f] then Flagged(DoConflict(x, second.w, f), true)
    else second
  }

  /** The split-files loop over `order`. */
  function SplitFold(x: MergeCtx, w: Work, conflict: bool, order: seq<string>): Flagged
    requires CtxOk(x) && AllIn(order, x.split.blobs)
    decreases |order|
  {
    if order == [] then Flagged(w, conflict)
    else
      var s := SplitStep(x, w, conflict, order[0]);
      SplitFold(x, s.w, s.conflict, order[1..])
  }

  /** The given-files loop of Gitlet.merge, starting with `conflict = false`. */
  method GivenLoop(x: MergeCtx, w: Work, order: seq<string>) returns (p: Pass)
    requires CtxOk(x) && AllIn(order, x.given.blobs)
    ensures p == GivenFold(x, w, false, order)
  {
    var cur := w;
    var conflict := false;
    var i := 0;
    while i < |order|
      invariant 0 <= i <= |order|
      invariant GivenFold(x, cur, conflict, order[i..]) == GivenFold(x, w, false, order)
    {
      var f := order[i];
      assert order[i..][1..] == order[i + 1..];
      if NeedsCheckout(x, f) {
        if !x.givenResolvable {
          return Pass(cur, conflict, true);
        }
        cur := CheckoutGiven(x, cur, f);
        cur := AddOf(x.sha1, x.head, cur, f);
      }
      var c := CheckConflict1(x, cur, f);
      cur := c.w;
      conflict := c.conflict;
      i := i + 1;
    }
    return Pass(cur, conflict, false);
  }

  /** The split-files loop of Gitlet.merge, continuing the given loop's `conflict`. */
  method SplitLoop(x: MergeCtx, w: Work, conflict: bool, order: seq<string>) returns (r: Flagged)
    requires CtxOk(x) && AllIn(order, x.split.blobs)
    ensures r == SplitFold(x, w, conflict, order)
  {
    var cur := w;
    var c := conflict;
    var i := 0;
    while i < |order|
      invariant 0 <= i <= |order|
      invariant SplitFold(x, cur, c, order[i..]) == SplitFold(x, w, conflict, order)
    {
      var f := order[i];
      assert order[i..][1..] == order[i + 1..];
      var h, s, g := x.head.blobs, x.split.blobs, x.given.blobs;
      if f in h && h[f] == s[f] && f !in g {
        cur := RemoveOf(x.head, x.blobFiles, cur, f);
      }
      if f in h && h[f] != s[f] && f !in g {
        cur := DoConflict(x, cur, f);
        c := true;
      } else if f in g && g[f] != s[f] && f !in h {
        cur := DoConflict(x, cur, f);
        c := true;
      }
      if f in h && f !in g && h[f] != s[f] {
        cur := DoConflict(x, cur, f);
        c := true;
      }
      i := i + 1;
    }
    return Flagged(cur, c);
  }

  // ---------------------------------------------------------------------
  // Three-way classification

  /** Both sides changed the file since the split, and not in the same way. */
  predicate ThreeWay(h: Option<Id>, s: Option<Id>, g: Option<Id>) {
    h != s && g != s && h != g
  }

  predicate ConflictAt(x: MergeCtx, f: string) {
    ThreeWay(Lookup(x.head.blobs, f), Lookup(x.split.blobs, f), Lookup(x.given.blobs, f))
  }

  /** checkConflict1 reports exactly the three-way conflicts of a given-head file. */
  lemma CheckConflict1IsThreeWay(x: MergeCtx, w: Work, f: string)
    requires CtxOk(x) && f in x.given.blobs
    ensures CheckConflict1(x, w, f).conflict <==> ConflictAt(x, f)
  {
  }

  /** A given-head file needs a checkout exactly when the given side changed it since the split. */
  lemma NeedsCheckoutIsGivenChange(x: MergeCtx, f: string)
    requires f in x.given.blobs
    ensures NeedsCheckout(x, f) <==> Lookup(x.given.blobs, f) != Lookup(x.split.blobs, f)
  {
  }

  /**
   * The split-files loop raises the flag for the three-way conflicts in
   * which one side deleted the file, and keeps the flag it was given otherwise.
   */
  lemma SplitStepConflict(x: MergeCtx, w: Work, conflict: bool, f: string)
    requires CtxOk(x) && f in x.split.blobs
    ensures SplitStep(x, w, conflict, f).conflict
            <==> conflict || (ConflictAt(x, f) && (f !in x.head.blobs || f !in x.given.blobs))
  {
  }

  /**
   * Because the given-files loop assigns `conflict`, only the file handed
   * out last decides the flag it leaves behind.
   */
  lemma {:induction false} GivenFoldConflictIsLast(x: MergeCtx, w: Work, conflict: bool, order: seq<string>)
    requires CtxOk(x) && AllIn(order, x.given.blobs)
    requires !GivenFold(x, w, conflict, order).halted
    ensures GivenFold(x, w, conflict, order).conflict
            == if order == [] then conflict else ConflictAt(x, order[|order| - 1])
    decreases |order|
  {
    if order != [] {
      var s := GivenStep(x, w, order[0]);
      CheckConflict1IsThreeWay(x, if NeedsCheckout(x, order[0]) then AddOf(x.sha1, x.head, CheckoutGiven(x, w, order[0]), order[0]) else w, order[0]);
      GivenFoldConflictIsLast(x, s.w, s.conflict, order[1..]);
      if |order| > 1 {
        assert order[1..][|order[1..]| - 1] == order[|order| - 1];
      }
    }
  }

  /**
   * The given-files loop stops the program exactly when the given head's
   * id cannot be resolved and some file needs a checkout.
   */
  lemma {:induction false} GivenFoldHalts(x: MergeCtx, w: Work, conflict: bool, order: seq<string>)
    requires CtxOk(x) && AllIn(order, x.given.blobs)
    ensures GivenFold(x, w, conflict, order).halted
            <==> !x.givenResolvable && exists i | 0 <= i < |order| :: NeedsCheckout(x, order[i])
    decreases |order|
  {
    if order != [] && !(NeedsCheckout(x, order[0]) && !x.givenResolvable) {
      var s := GivenStep(x, w, order[0]);
      var rest := order[1..];
      GivenFoldHalts(x, s.w, s.conflict, rest);
      assert forall i | 0 <= i < |rest| :: rest[i] == order[i + 1];
      if !x.givenResolvable && exists i | 0 <= i < |order| :: NeedsCheckout(x, order[i]) {
        var i :| 0 <= i < |order| && NeedsCheckout(x, order[i]);
        assert NeedsCheckout(x, rest[i - 1]);
      }
    }
  }

  /** The split-files loop leaves the flag set iff it was set or some file is a deletion conflict. */
  lemma {:induction false} SplitFoldConflict(x: MergeCtx, w: Work, conflict: bool, order: seq<string>)
    requires CtxOk(x) && AllIn(order, x.split.blobs)
    ensures SplitFold(x, w, conflict, order).conflict
            <==> conflict || exists i | 0 <= i < |order| ::
                   ConflictAt(x, order[i]) && (order[i] !in x.head.blobs || order[i] !in x.given.blobs)
    decreases |order|
  {
    if order != [] {
      var s := SplitStep(x, w, conflict, order[0]);
      SplitStepConflict(x, w, conflict, order[0]);
      SplitFoldConflict(x, s.w, s.conflict, order[1..]);
      var rest := order[1..];
      forall i | 0 <= i < |rest| ensures rest[i] == order[i + 1] { }
      if exists i | 0 <= i < |order| ::
           ConflictAt(x, order[i]) && (order[i] !in x.head.blobs || order[i] !in x.given.blobs) {
        var i :| 0 <= i < |order| &&
           ConflictAt(x, order[i]) && (order[i] !in x.head.blobs || order[i] !in x.given.blobs);
        if i > 0 {
          assert rest[i - 1] == order[i];
        }
      }
    }
  }

  // ---------------------------------------------------------------------
  // Per-file outcomes of the given-files loop

  /** Everything a merge pass can hold about one filename. */
  datatype FileSlice = FileSlice(cwd: Option<string>, add: Option<Blob>, rem: Option<Blob>)

  function Slice(w: Work, f: string): FileSlice {
    FileSlice(Lookup(w.cwd, f), Lookup(w.add, f), Lookup(w.rem, f))
  }

  /** What `add` leaves in the addition map for `f` with content `t`. */
  function StagedFor(sha1: Sha1, head: Commit, f: string, t: string): Option<Blob> {
    var nb := NewBlob(sha1, f, t);
    if f in head.blobs && head.blobs[f] == nb.id then None else Some(nb)
  }

  /** add touches only the entries for its own filename. */
  lemma AddOfFrame(sha1: Sha1, head: Commit, w: Work, f: string, g: string)
    requires f in w.cwd && g != f
    ensures Slice(AddOf(sha1, head, w, f), g) == Slice(w, g)
  {
  }

  /** The given pass for `f` touches only the entries for `f`. */
  lemma GivenStepFrame(x: MergeCtx, w: Work, f: string, g: string)
    requires CtxOk(x) && f in x.given.blobs && (x.givenResolvable || !NeedsCheckout(x, f))
    requires g != f
    ensures Slice(GivenStep(x, w, f).w, g) == Slice(w, g)
  {
    var w1 := if NeedsCheckout(x, f) then AddOf(x.sha1, x.head, CheckoutGiven(x, w, f), f) else w;
    if NeedsCheckout(x, f) {
      AddOfFrame(x.sha1, x.head, CheckoutGiven(x, w, f), f, g);
    }
    assert Slice(w1, g) == Slice(w, g);
    var h, s, gb := x.head.blobs, x.split.blobs, x.given.blobs;
    var first := if f in h && f in s && h[f] != gb[f] && h[f] != s[f] && s[f] != gb[f]
                 then Flagged(DoConflict(x, w1, f), true) else Flagged(w1, false);
    if first.conflict {
      DoConflictFrame(x, w1, f, g);
    }
    assert Slice(first.w, g) == Slice(w, g);
    DoConflictFrame(x, first.w, f, g);
  }

  lemma DoConflictFrame(x: MergeCtx, w: Work, f: string, g: string)
    requires CtxOk(x) && g != f
    ensures Slice(DoConflict(x, w, f), g) == Slice(w, g)
  {
    var text := ConflictText(ContentOf(x.head, f, x.blobFiles), ContentOf(x.given, f, x.blobFiles));
    AddOfFrame(x.sha1, x.head, w.(cwd := w.cwd[f := text]), f, g);
  }

  /**
   * With the stage's entry for `f` empty, as merge guarantees by refusing a
   * non-empty stage, the given pass for `f` leaves:
   * the conflict text, staged, when both sides changed `f` differently;
   * the given version, staged, when only the given side changed it;
   * `f` untouched when the given side did not change it.
   */
  lemma GivenStepOutcome(x: MergeCtx, w: Work, f: string)
    requires CtxOk(x) && f in x.given.blobs && x.givenResolvable
    requires f !in w.rem
    ensures var r := GivenStep(x, w, f).w;
            var text := ConflictText(ContentOf(x.head, f, x.blobFiles), ContentOf(x.given, f, x.blobFiles));
            var given := x.blobFiles[x.given.blobs[f]].content;
            (ConflictAt(x, f) ==>
               Slice(r, f) == FileSlice(Some(text), StagedFor(x.sha1, x.head, f, text), None))
            && (!ConflictAt(x, f) && Lookup(x.given.blobs, f) != Lookup(x.split.blobs, f) ==>
               Slice(r, f) == FileSlice(Some(given), StagedFor(x.sha1, x.head, f, given), None))
            && (Lookup(x.given.blobs, f) == Lookup(x.split.blobs, f) ==> Slice(r, f) == Slice(w, f))
  {
    var w1 := if NeedsCheckout(x, f) then AddOf(x.sha1, x.head, CheckoutGiven(x, w, f), f) else w;
    CheckConflict1IsThreeWay(x, w1, f);
    assert f !in w1.rem;
  }

  /** add reads only the entries for its own filename. */
  lemma AddOfLocal(sha1: Sha1, head: Commit, w1: Work, w2: Work, f: string)
    requires f in w1.cwd && Slice(w1, f) == Slice(w2, f)
    ensures f in w2.cwd
    ensures Slice(AddOf(sha1, head, w1, f), f) == Slice(AddOf(sha1, head, w2, f), f)
  {
    assert Lookup(w1.cwd, f) == Lookup(w2.cwd, f);
    assert Lookup(w1.rem, f) == Lookup(w2.rem, f);
  }

  /** doConflict reads only the entries for its own filename. */
  lemma DoConflictLocal(x: MergeCtx, w1: Work, w2: Work, f: string)
    requires CtxOk(x) && Slice(w1, f) == Slice(w2, f)
    ensures Slice(DoConflict(x, w1, f), f) == Slice(DoConflict(x, w2, f), f)
  {
    var text := ConflictText(ContentOf(x.head, f, x.blobFiles), ContentOf(x.given, f, x.blobFiles));
    var v1, v2 := w1.(cwd := w1.cwd[f := text]), w2.(cwd := w2.cwd[f := text]);
    assert Slice(v1, f) == Slice(v2, f);
    AddOfLocal(x.sha1, x.head, v1, v2, f);
  }

  /** Two states that agree on `f` agree on `f` after the given pass for `f`. */
  lemma GivenStepLocal(x: MergeCtx, w1: Work, w2: Work, f: string)
    requires CtxOk(x) && f in x.given.blobs && (x.givenResolvable || !NeedsCheckout(x, f))
    requires Slice(w1, f) == Slice(w2, f)
    ensures Slice(GivenStep(x, w1, f).w, f) == Slice(GivenStep(x, w2, f).w, f)
  {
    var v1 := if NeedsCheckout(x, f) then AddOf(x.sha1, x.head, CheckoutGiven(x, w1, f), f) else w1;
    var v2 := if NeedsCheckout(x, f) then AddOf(x.sha1, x.head, CheckoutGiven(x, w2, f), f) else w2;
    if NeedsCheckout(x, f) {
      var c1, c2 := CheckoutGiven(x, w1, f), CheckoutGiven(x, w2, f);
      assert Slice(c1, f) == Slice(c2, f);
      AddOfLocal(x.sha1, x.head, c1, c2, f);
    }
    assert Slice(v1, f) == Slice(v2, f);
    var h, s, g := x.head.blobs, x.split.blobs, x.given.blobs;
    if f in h && f in s && h[f] != g[f] && h[f] != s[f] && s[f] != g[f] {
      DoConflictLocal(x, v1, v2, f);
    } else if f in h && f !in s && h[f] != g[f] {
      DoConflictLocal(x, v1, v2, f);
    } else if f !in h && f in s && s[f] != g[f] {
      DoConflictLocal(x, v1, v2, f);
    }
  }

  /** Files the given loop does not reach keep their entries. */
  lemma {:induction false} GivenFoldFrame(x: MergeCtx, w: Work, conflict: bool, order: seq<string>, g: string)
    requires CtxOk(x) && AllIn(order, x.given.blobs) && x.givenResolvable
    requires forall i | 0 <= i < |order| :: order[i] != g
    ensures Slice(GivenFold(x, w, conflict, order).w, g) == Slice(w, g)
    decreases |order|
  {
    if order != [] {
      var s := GivenStep(x, w, order[0]);
      GivenStepFrame(x, w, order[0], g);
      assert forall i | 0 <= i < |order[1..]| :: order[1..][i] == order[i + 1];
      GivenFoldFrame(x, s.w, s.conflict, order[1..], g);
    }
  }

  /**
   * Whatever order the HashMap hands out the given head's files in, each
   * file ends up as its own pass left it: the loop's per-file outcome does
   * not depend on the iteration order.
   */
  lemma {:induction false} GivenFoldAt(x: MergeCtx, w: Work, conflict: bool, order: seq<string>, f: string)
    requires CtxOk(x) && AllIn(order, x.given.blobs) && x.givenResolvable
    requires Distinct(order) && f in order
    ensures Slice(GivenFold(x, w, conflict, order).w, f) == Slice(GivenStep(x, w, f).w, f)
    decreases |order|
  {
    var s := GivenStep(x, w, order[0]);
    var rest := order[1..];
    assert forall i | 0 <= i < |rest| :: rest[i] == order[i + 1];
    if order[0] == f {
      GivenFoldFrame(x, s.w, s.conflict, rest, f);
    } else {
      assert f in rest;
      GivenFoldAt(x, s.w, s.conflict, rest, f);
      GivenStepFrame(x, w, order[0], f);
      GivenStepLocal(x, s.w, w, f);
    }
  }

  // ---------------------------------------------------------------------
  // Per-file outcomes of the split-files loop

  /**
   * A split file the current head left unchanged and the given head deleted
   * is removed: unstaged, deleted from the working directory and staged for
   * removal (under the stored blob's own filename). The flag is kept.
   */
  lemma SplitStepDeletes(x: MergeCtx, w: Work, conflict: bool, f: string)
    requires CtxOk(x) && f in x.split.blobs
    requires f in x.head.blobs && x.head.blobs[f] == x.split.blobs[f] && f !in x.given.blobs
    ensures var r := SplitStep(x, w, conflict, f);
            var b := x.blobFiles[x.head.blobs[f]];
            r.conflict == conflict
            && f !in r.w.cwd && f !in r.w.add
            && b.filename in r.w.rem && r.w.rem[b.filename] == b
  {
  }

  /**
   * A split file that one side deleted while the other changed it ends up
   * as the conflict text, staged for addition, and raises the flag.
   */
  lemma SplitStepConflictText(x: MergeCtx, w: Work, conflict: bool, f: string)
    requires CtxOk(x) && f in x.split.blobs && f !in w.rem
    requires ConflictAt(x, f) && (f !in x.head.blobs || f !in x.given.blobs)
    ensures var r := SplitStep(x, w, conflict, f);
            var text := ConflictText(ContentOf(x.head, f, x.blobFiles), ContentOf(x.given, f, x.blobFiles));
            r.conflict
            && Slice(r.w, f) == FileSlice(Some(text), StagedFor(x.sha1, x.head, f, text), None)
  {
  }

  /** The conflict text doConflict writes for `f`. */
  function ConflictFor(x: MergeCtx, f: string): string
    requires CtxOk(x)
  {
    ConflictText(ContentOf(x.head, f, x.blobFiles), ContentOf(x.given, f, x.blobFiles))
  }

  /**
   * A split pass for `f` leaves the working file and the staged addition of
   * every other filename alone. (Its staged removal is filed under the
   * stored blob's own filename, which need not be `f`.)
   */
  lemma SplitStepFrame(x: MergeCtx, w: Work, conflict: bool, f: string, g: string)
    requires CtxOk(x) && f in x.split.blobs && g != f
    ensures var r := SplitStep(x, w, conflict, f).w;
            Lookup(r.cwd, g) == Lookup(w.cwd, g) && Lookup(r.add, g) == Lookup(w.add, g)
  {
    var h, s, gb := x.head.blobs, x.split.blobs, x.given.blobs;
    var w1 := if f in h && h[f] == s[f] && f !in gb then RemoveOf(x.head, x.blobFiles, w, f) else w;
    assert Lookup(w1.cwd, g) == Lookup(w.cwd, g) && Lookup(w1.add, g) == Lookup(w.add, g);
    DoConflictFrame(x, w1, f, g);
    var second := if f in h && h[f] != s[f] && f !in gb then Flagged(DoConflict(x, w1, f), true)
                  else if f in gb && gb[f] != s[f] && f !in h then Flagged(DoConflict(x, w1, f), true)
                  else Flagged(w1, conflict);
    assert Lookup(second.w.cwd, g) == Lookup(w.cwd, g) && Lookup(second.w.add, g) == Lookup(w.add, g);
    DoConflictFrame(x, second.w, f, g);
  }

  /** Files the split loop does not reach keep their working file and staged addition. */
  lemma {:induction false} SplitFoldFrame(x: MergeCtx, w: Work, conflict: bool, order: seq<string>, g: string)
    requires CtxOk(x) && AllIn(order, x.split.blobs)
    requires forall i | 0 <= i < |order| :: order[i] != g
    ensures var r := SplitFold(x, w, conflict, order).w;
            Lookup(r.cwd, g) == Lookup(w.cwd, g) && Lookup(r.add, g) == Lookup(w.add, g)
    decreases |order|
  {
    if order != [] {
      var s := SplitStep(x, w, conflict, order[0]);
      SplitStepFrame(x, w, conflict, order[0], g);
      assert forall i | 0 <= i < |order[1..]| :: order[1..][i] == order[i + 1];
      SplitFoldFrame(x, s.w, s.conflict, order[1..], g);
    }
  }

  /** A split pass for a deletion conflict writes the conflict text over the file, whatever it held. */
  lemma SplitStepConflictCwd(x: MergeCtx, w: Work, conflict: bool, f: string)
    requires CtxOk(x) && f in x.split.blobs
    requires ConflictAt(x, f) && (f !in x.head.blobs || f !in x.given.blobs)
    ensures Lookup(SplitStep(x, w, conflict, f).w.cwd, f) == Some(ConflictFor(x, f))
  {
  }

  /**
   * In any order of the split files: a file the current head left as at the
   * split and the given head deleted ends the loop deleted from the working
   * directory and not staged for addition.
   */
  lemma {:induction false} SplitFoldDeletes(x: MergeCtx, w: Work, conflict: bool, order: seq<string>, f: string)
    requires CtxOk(x) && AllIn(order, x.split.blobs) && Distinct(order) && f in order
    requires f in x.head.blobs && x.head.blobs[f] == x.split.blobs[f] && f !in x.given.blobs
    ensures var r := SplitFold(x, w, conflict, order).w;
            f !in r.cwd && f !in r.add
    decreases |order|
  {
    var s := SplitStep(x, w, conflict, order[0]);
    var rest := order[1..];
    assert forall i | 0 <= i < |rest| :: rest[i] == order[i + 1];
    if order[0] == f {
      SplitStepDeletes(x, w, conflict, f);
      SplitFoldFrame(x, s.w, s.conflict, rest, f);
    } else {
      assert f in rest;
      SplitFoldDeletes(x, s.w, s.conflict, rest, f);
    }
  }

  /**
   * In any order of the split files: a file deleted on one side and changed
   * on the other ends the loop holding the conflict text.
   */
  lemma {:induction false} SplitFoldConflictCwd(x: MergeCtx, w: Work, conflict: bool, order: seq<string>, f: string)
    requires CtxOk(x) && AllIn(order, x.split.blobs) && Distinct(order) && f in order
    requires ConflictAt(x, f) && (f !in x.head.blobs || f !in x.given.blobs)
    ensures Lookup(SplitFold(x, w, conflict, order).w.cwd, f) == Some(ConflictFor(x, f))
    decreases |order|
  {
    var s := SplitStep(x, w, conflict, order[0]);
    var rest := order[1..];
    assert forall i | 0 <= i < |rest| :: rest[i] == order[i + 1];
    if order[0] == f {
      SplitStepConflictCwd(x, w, conflict, f);
      SplitFoldFrame(x, s.w, s.conflict, rest, f);
    } else {
      assert f in rest;
      SplitFoldConflictCwd(x, s.w, s.conflict, rest, f);
    }
  }

  /**
   * The split files a split pass acts on: those the given head deleted
   * while the current head kept them, and those the current head deleted
   * while the given head changed them.
   */
  predicate SplitTouches(x: MergeCtx, f: string)
    requires f in x.split.blobs
  {
    var h, s, g := x.head.blobs, x.split.blobs, x.given.blobs;
    (f in h && f !in g) || (f in g && f !in h && g[f] != s[f])
  }

  /** A split pass for any other split file changes nothing, not even the flag. */
  lemma SplitStepKeeps(x: MergeCtx, w: Work, conflict: bool, f: string)
    requires CtxOk(x) && f in x.split.blobs && !SplitTouches(x, f)
    ensures SplitStep(x, w, conflict, f) == Flagged(w, conflict)
  {
  }

  /**
   * In any order of the split files, a file the split loop does not act on
   * (outside the split tree, or no SplitTouches case) keeps its working file
   * and staged addition through the whole loop.
   */
  lemma {:induction false} SplitFoldKeeps(x: MergeCtx, w: Work, conflict: bool, order: seq<string>, f: string)
    requires CtxOk(x) && AllIn(order, x.split.blobs)
    requires f in x.split.blobs ==> !SplitTouches(x, f)
    ensures var r := SplitFold(x, w, conflict, order).w;
            Lookup(r.cwd, f) == Lookup(w.cwd, f) && Lookup(r.add, f) == Lookup(w.add, f)
    decreases |order|
  {
    if order != [] {
      var s := SplitStep(x, w, conflict, order[0]);
      if order[0] == f {
        SplitStepKeeps(x, w, conflict, f);
      } else {
        SplitStepFrame(x, w, conflict, order[0], f);
      }
      assert forall i | 0 <= i < |order[1..]| :: order[1..][i] == order[i + 1];
      SplitFoldKeeps(x, s.w, s.conflict, order[1..], f);
    }
  }
}
