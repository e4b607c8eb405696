/** Commit.java: a commit under construction, how it is stored, the search
    for the split point of two branches, and the three-way merge of the
    current branch with another one. */
module Commit {
  import opened Types
  import opened Utils
  import Stage
  import CheckoutCommand
  import ResetCommand

  /** Integer.MAX_VALUE. */
  const MaxInt: int := 0x7fff_ffff

  /** The snapshot commit() records: the parent's files, each staged addition
      mapped to the SHA-1 of its staged text, each staged removal dropped. */
  function Snapshot(parent: map<Name, Sha1>, added: map<Name, string>, removed: set<Name>, sha1: string -> Sha1)
    : (s: map<Name, Sha1>)
    ensures forall n :: n in added && n !in removed ==> n in s && s[n] == sha1(added[n])
    ensures forall n :: n in removed ==> n !in s
    ensures forall n :: n !in added && n !in removed ==> (n in s <==> n in parent)
    ensures forall n :: n in parent && n !in added && n !in removed ==> s[n] == parent[n]
  {
    (parent + map n | n in added :: sha1(added[n])) - removed
  }

  /** The commit initialCommit() stores, whatever the clock says when it is
      made. */
  const InitialData: CommitData :=
    CommitData(None, None, map[], {}, {}, "initial commit", "master", 0, false)

  /** The three-way merge's view of one file. The predicates below are the
      ones resolveFilesAtSplitPoint asks about each name: `cur` is the merge
      commit's own snapshot as it stands when the question is asked, `split`
      the split point's, `other` the given branch head's; `blobs` are the
      blob texts and `wd` the working directory. */

  /** onlyChangedInOtherBranch(f): tracked by all three, unchanged from the
      split point here, changed in the given branch. */
  predicate OnlyChangedInOtherBranch(f: Name, cur: map<Name, Sha1>, split: map<Name, Sha1>,
                                     other: map<Name, Sha1>, blobs: map<string, string>)
  {
    && f in cur && f in split
    && ContentsMatch(Version(split, blobs, f), Version(cur, blobs, f))
    && f in other
    && !ContentsMatch(Version(split, blobs, f), Version(other, blobs, f))
  }

  /** presentInCWDRemovedInBoth(f): tracked by the split point, by neither
      branch, and still in the working directory. */
  predicate PresentInCwdRemovedInBoth(f: Name, cur: map<Name, Sha1>, split: map<Name, Sha1>,
                                      other: map<Name, Sha1>, wd: map<Name, string>)
  {
    f !in cur && f !in other && f in split && f in wd
  }

  /** onlyInGivenBranch(f): tracked only by the given branch. */
  predicate OnlyInGivenBranch(f: Name, cur: map<Name, Sha1>, split: map<Name, Sha1>, other: map<Name, Sha1>)
  {
    f !in cur && f !in split && f in other
  }

  /** ummodCurrentAbsentGiven(f): tracked by the split point, unchanged
      here, gone from the given branch. */
  predicate UnmodifiedCurrentAbsentGiven(f: Name, cur: map<Name, Sha1>, split: map<Name, Sha1>,
                                         other: map<Name, Sha1>, blobs: map<string, string>)
  {
    f in split && f !in other && ContentsMatch(Version(cur, blobs, f), Version(split, blobs, f))
  }

  /** inConflict(f): both branches track `f` with texts that do not match
      (whatever the split point holds), or the split point tracks it and one
      branch dropped it while the other changed it. */
  predicate InConflict(f: Name, cur: map<Name, Sha1>, split: map<Name, Sha1>,
                       other: map<Name, Sha1>, blobs: map<string, string>)
  {
    var differentChanges := f in cur && f in other
                            && !ContentsMatch(Version(cur, blobs, f), Version(other, blobs, f));
    var oneAbsence := f in split
                      && ((f !in cur && f in other
                           && !ContentsMatch(Version(split, blobs, f), Version(other, blobs, f)))
                          || (f !in other && f in cur
                              && !ContentsMatch(Version(split, blobs, f), Version(cur, blobs, f))));
    differentChanges || oneAbsence
  }

  /** The text mergeConflict reads for one side: the blob's text, or the
      empty string when there is no blob. */
  function SideText(v: Option<string>): string
  {
    if v.Some? then v.value else ""
  }

  /** The text of a conflicted file: both sides between conflict markers. */
  function ConflictText(cur: map<Name, Sha1>, other: map<Name, Sha1>, blobs: map<string, string>, f: Name)
    : string
  {
    "<<<<<<< HEAD\n" + SideText(Version(cur, blobs, f)) + "=======\n"
      + SideText(Version(other, blobs, f)) + ">>>>>>>\n"
  }

  /** What the second loop of resolveFilesAtSplitPoint does to a name the
      split point tracks: the first test that holds, in Java's order,
      picks the action. */
  datatype Resolution = Keep | Adopt | Except | Delete | Conflict

  function AtSplit(f: Name, cur: map<Name, Sha1>, split: map<Name, Sha1>, other: map<Name, Sha1>,
                   blobs: map<string, string>, wd: map<Name, string>): (a: Resolution)
    ensures a == Adopt ==> f in other
  {
    if OnlyChangedInOtherBranch(f, cur, split, other, blobs) then Adopt
    else if PresentInCwdRemovedInBoth(f, cur, split, other, wd) then Except
    else if UnmodifiedCurrentAbsentGiven(f, cur, split, other, blobs) then Delete
    else if InConflict(f, cur, split, other, blobs) then Conflict
    else Keep
  }

  /** The second loop's action for every split point name, each decided on
      the snapshot `c1` the first loop left (the second loop changes a name's
      entry only when it handles that name). */
  function Plan(c1: map<Name, Sha1>, split: map<Name, Sha1>, other: map<Name, Sha1>,
                blobs: map<string, string>, wd: map<Name, string>): (plan: map<Name, Resolution>)
    ensures plan.Keys == split.Keys
    ensures forall f :: f in plan ==> plan[f] == AtSplit(f, c1, split, other, blobs, wd)
  {
    map f | f in split :: AtSplit(f, c1, split, other, blobs, wd)
  }

  /** The names of `done` the plan resolves by action `a`. */
  function Handled(done: set<Name>, plan: map<Name, Resolution>, a: Resolution): set<Name>
  {
    set f | f in done && f in plan && plan[f] == a
  }

  /** The snapshot after the first loop: every name only the given branch
      tracks takes the given branch's blob. */
  function GivenAdded(cur: map<Name, Sha1>, split: map<Name, Sha1>, other: map<Name, Sha1>)
    : map<Name, Sha1>
  {
    cur + map f | f in other && OnlyInGivenBranch(f, cur, split, other) :: other[f]
  }

  /** The snapshot once the first loop has visited every name of the given
      branch outside `todo`. */
  function AdoptedExcept(cur: map<Name, Sha1>, split: map<Name, Sha1>, other: map<Name, Sha1>, todo: set<Name>)
    : map<Name, Sha1>
  {
    cur + map g | g in other && g !in todo && OnlyInGivenBranch(g, cur, split, other) :: other[g]
  }

  lemma AdoptedNone(cur: map<Name, Sha1>, split: map<Name, Sha1>, other: map<Name, Sha1>)
    ensures AdoptedExcept(cur, split, other, other.Keys) == cur
  {
  }

  lemma AdoptedAll(cur: map<Name, Sha1>, split: map<Name, Sha1>, other: map<Name, Sha1>)
    ensures AdoptedExcept(cur, split, other, {}) == GivenAdded(cur, split, other)
  {
    var a := AdoptedExcept(cur, split, other, {});
    var b := GivenAdded(cur, split, other);
    assert a.Keys == b.Keys;
  }

  /** Visiting `f`: whether it is adopted is decided the same on the
      snapshot so far as on the original one, and it alone is added. */
  lemma AdoptStep(cur: map<Name, Sha1>, split: map<Name, Sha1>, other: map<Name, Sha1>, todo: set<Name>, f: Name)
    requires f in todo && todo <= other.Keys
    ensures var c := AdoptedExcept(cur, split, other, todo);
            && (OnlyInGivenBranch(f, c, split, other) <==> OnlyInGivenBranch(f, cur, split, other))
            && AdoptedExcept(cur, split, other, todo - {f})
               == if OnlyInGivenBranch(f, cur, split, other) then c[f := other[f]] else c
  {
    var c := AdoptedExcept(cur, split, other, todo);
    var d := AdoptedExcept(cur, split, other, todo - {f});
    var e := if OnlyInGivenBranch(f, cur, split, other) then c[f := other[f]] else c;
    assert d.Keys == e.Keys;
  }

  /** The entry the second loop leaves for a name `f` once the names in
      `done` are handled: adopted from the given branch, replaced by a
      conflict blob, removed, or left as it was. */
  function SplitEntry(f: Name, done: set<Name>, c1: map<Name, Sha1>, plan: map<Name, Resolution>,
                      other: map<Name, Sha1>, blobs: map<string, string>, sha1: string -> Sha1)
    : Option<Sha1>
  {
    if f in done && f in plan then
      match plan[f]
      case Adopt => if f in other then Some(other[f]) else None
      case Conflict => Some(sha1(ConflictText(c1, other, blobs, f)))
      case Delete => None
      case _ => if f in c1 then Some(c1[f]) else None
    else if f in c1 then Some(c1[f])
    else None
  }

  /** The snapshot once the second loop has handled the names in `done`. */
  function SplitResolved(done: set<Name>, c1: map<Name, Sha1>, plan: map<Name, Resolution>,
                         other: map<Name, Sha1>, blobs: map<string, string>, sha1: string -> Sha1)
    : map<Name, Sha1>
  {
    map f | f in c1.Keys + done && SplitEntry(f, done, c1, plan, other, blobs, sha1).Some?
      :: SplitEntry(f, done, c1, plan, other, blobs, sha1).value
  }

  /** The third loop finds working file `f` in conflict: the split point
      does not track it and the branches disagree on it. */
  predicate CwdConflict(f: Name, c2: map<Name, Sha1>, split: map<Name, Sha1>, other: map<Name, Sha1>,
                        blobs: map<string, string>, wd: map<Name, string>)
  {
    f in wd && f !in split && InConflict(f, c2, split, other, blobs)
  }

  /** The working files of `done` the third loop finds in conflict. */
  function CwdConflicts(done: set<Name>, c2: map<Name, Sha1>, split: map<Name, Sha1>, other: map<Name, Sha1>,
                        blobs: map<string, string>, wd: map<Name, string>): set<Name>
  {
    set f | f in done && CwdConflict(f, c2, split, other, blobs, wd)
  }

  /** The snapshot after the names in `conflicts` were replaced by their
      conflict blobs. */
  function WithConflicts(conflicts: set<Name>, c2: map<Name, Sha1>, other: map<Name, Sha1>,
                         blobs: map<string, string>, sha1: string -> Sha1): map<Name, Sha1>
  {
    c2 + map f | f in conflicts :: sha1(ConflictText(c2, other, blobs, f))
  }

  /** The snapshot after the first two loops. */
  function SplitDone(cur: map<Name, Sha1>, split: map<Name, Sha1>, other: map<Name, Sha1>,
                     blobs: map<string, string>, wd: map<Name, string>, sha1: string -> Sha1)
    : map<Name, Sha1>
  {
    var c1 := GivenAdded(cur, split, other);
    SplitResolved(split.Keys, c1, Plan(c1, split, other, blobs, wd), other, blobs, sha1)
  }

  /** The merge commit's snapshot after resolveFilesAtSplitPoint. */
  function Merged(cur: map<Name, Sha1>, split: map<Name, Sha1>, other: map<Name, Sha1>,
                  blobs: map<string, string>, wd: map<Name, string>, sha1: string -> Sha1)
    : map<Name, Sha1>
  {
    var c2 := SplitDone(cur, split, other, blobs, wd, sha1);
    WithConflicts(CwdConflicts(wd.Keys, c2, split, other, blobs, wd), c2, other, blobs, sha1)
  }

  /** The names the merge keeps as exceptions, and the names it deletes. */
  function MergeExceptions(cur: map<Name, Sha1>, split: map<Name, Sha1>, other: map<Name, Sha1>,
                           blobs: map<string, string>, wd: map<Name, string>): set<Name>
  {
    Handled(split.Keys, Plan(GivenAdded(cur, split, other), split, other, blobs, wd), Except)
  }

  function MergeDeletions(cur: map<Name, Sha1>, split: map<Name, Sha1>, other: map<Name, Sha1>,
                          blobs: map<string, string>, wd: map<Name, string>): set<Name>
  {
    Handled(split.Keys, Plan(GivenAdded(cur, split, other), split, other, blobs, wd), Delete)
  }

  /** Some name was resolved as a conflict by the second or third loop. */
  predicate MergeConflicts(cur: map<Name, Sha1>, split: map<Name, Sha1>, other: map<Name, Sha1>,
                           blobs: map<string, string>, wd: map<Name, string>, sha1: string -> Sha1)
  {
    || Handled(split.Keys, Plan(GivenAdded(cur, split, other), split, other, blobs, wd), Conflict) != {}
    || CwdConflicts(wd.Keys, SplitDone(cur, split, other, blobs, wd, sha1), split, other, blobs, wd) != {}
  }

  /** A snapshot with its exceptions, deletions and conflict flag. */
  datatype Resolved = Resolved(contents: map<Name, Sha1>, exceptions: set<Name>, delFromMerge: set<Name>,
                               hasConflict: bool)

  /** What resolveFilesAtSplitPoint leaves of a commit whose snapshot,
      exceptions, deletions and conflict flag were those of `before`. */
  function MergeResult(before: Resolved, split: map<Name, Sha1>, other: map<Name, Sha1>,
                       blobs: map<string, string>, wd: map<Name, string>, sha1: string -> Sha1): Resolved
  {
    var cur := before.contents;
    Resolved(Merged(cur, split, other, blobs, wd, sha1),
             before.exceptions + MergeExceptions(cur, split, other, blobs, wd),
             before.delFromMerge + MergeDeletions(cur, split, other, blobs, wd),
             before.hasConflict || MergeConflicts(cur, split, other, blobs, wd, sha1))
  }

  /** The conflict texts the merge writes, in the second and the third
      loop. */
  ghost function MergeConflictTexts(cur: map<Name, Sha1>, split: map<Name, Sha1>, other: map<Name, Sha1>,
                                    blobs: map<string, string>, wd: map<Name, string>, sha1: string -> Sha1)
    : set<string>
  {
    var c1 := GivenAdded(cur, split, other);
    var c2 := SplitDone(cur, split, other, blobs, wd, sha1);
    ConflictTexts(Handled(split.Keys, Plan(c1, split, other, blobs, wd), Conflict), c1, other, blobs)
      + ConflictTexts(CwdConflicts(wd.Keys, c2, split, other, blobs, wd), c2, other, blobs)
  }

  /** The merge's questions about `f` depend only on the snapshot's entry
      for `f`. */
  lemma SameEntry(f: Name, a: map<Name, Sha1>, b: map<Name, Sha1>, split: map<Name, Sha1>,
                  other: map<Name, Sha1>, blobs: map<string, string>, wd: map<Name, string>)
    requires (f in a <==> f in b) && (f in a ==> a[f] == b[f])
    ensures AtSplit(f, a, split, other, blobs, wd) == AtSplit(f, b, split, other, blobs, wd)
    ensures InConflict(f, a, split, other, blobs) == InConflict(f, b, split, other, blobs)
    ensures OnlyInGivenBranch(f, a, split, other) == OnlyInGivenBranch(f, b, split, other)
    ensures ConflictText(a, other, blobs, f) == ConflictText(b, other, blobs, f)
  {
    assert Version(a, blobs, f) == Version(b, blobs, f);
  }

  /** The blob folder after conflict blobs were written: nothing is lost,
      each of the `texts` has its blob, and every new or rewritten blob
      holds one of the `texts`. */
  ghost predicate BlobsExtended(before: map<string, string>, after: map<string, string>,
                                texts: set<string>, sha1: string -> Sha1)
  {
    && (forall id :: id in before ==> id in after)
    && (forall t :: t in texts ==> sha1(t) in after)
    && (forall id :: id in after ==>
          (id in before && after[id] == before[id])
          || exists t :: t in texts && id == sha1(t) && after[id] == t)
  }

  /** The conflict texts written for the names in `conflicts`. */
  ghost function ConflictTexts(conflicts: set<Name>, c: map<Name, Sha1>, other: map<Name, Sha1>,
                               blobs: map<string, string>): set<string>
  {
    set f | f in conflicts :: ConflictText(c, other, blobs, f)
  }

  /** Before the second loop the snapshot is the first loop's. */
  lemma SplitResolvedNone(c1: map<Name, Sha1>, plan: map<Name, Resolution>, other: map<Name, Sha1>,
                          blobs: map<string, string>, sha1: string -> Sha1)
    ensures SplitResolved({}, c1, plan, other, blobs, sha1) == c1
  {
    assert SplitResolved({}, c1, plan, other, blobs, sha1).Keys == c1.Keys;
  }

  /** Two maps that agree away from `f` differ by `f`'s entry. */
  lemma UpdatedAt(before: map<Name, Sha1>, after: map<Name, Sha1>, f: Name, e: Option<Sha1>)
    requires forall g :: g != f ==> (g in after <==> g in before)
    requires forall g :: g != f && g in after ==> after[g] == before[g]
    requires (f in after <==> e.Some?) && (e.Some? ==> after[f] == e.value)
    ensures after == if e.Some? then before[f := e.value] else before - {f}
  {
    if e.Some? {
      assert after.Keys == before.Keys + {f};
    } else {
      assert after.Keys == before.Keys - {f};
    }
  }

  /** Handling one more split point name changes only that name's entry. */
  lemma SplitResolvedStep(f: Name, done: set<Name>, c1: map<Name, Sha1>, plan: map<Name, Resolution>,
                          other: map<Name, Sha1>, blobs: map<string, string>, sha1: string -> Sha1)
    requires f !in done
    ensures var before := SplitResolved(done, c1, plan, other, blobs, sha1);
            var after := SplitResolved(done + {f}, c1, plan, other, blobs, sha1);
            var e := SplitEntry(f, done + {f}, c1, plan, other, blobs, sha1);
            && (f in before <==> f in c1) && (f in c1 ==> before[f] == c1[f])
            && after == if e.Some? then before[f := e.value] else before - {f}
  {
    var before := SplitResolved(done, c1, plan, other, blobs, sha1);
    var after := SplitResolved(done + {f}, c1, plan, other, blobs, sha1);
    forall g | g != f
      ensures SplitEntry(g, done + {f}, c1, plan, other, blobs, sha1)
              == SplitEntry(g, done, c1, plan, other, blobs, sha1)
    {
    }
    UpdatedAt(before, after, f, SplitEntry(f, done + {f}, c1, plan, other, blobs, sha1));
  }
  /** The snapshot after one split point name was handled by `action`. */
  function AppliedEntry(cur: map<Name, Sha1>, f: Name, action: Resolution, other: map<Name, Sha1>,
                        blobs: map<string, string>, sha1: string -> Sha1): map<Name, Sha1>
    requires action == Adopt ==> f in other
  {
    match action
    case Adopt => cur[f := other[f]]
    case Delete => cur - {f}
    case Conflict => cur[f := sha1(ConflictText(cur, other, blobs, f))]
    case _ => cur
  }

  /** What resolveFilesAtSplitPoint stores, as written, for a name it adopts
      from the given branch: other.getVersionOf(f).getName(), the blob's
      file name "<id>.txt", where every other entry holds the bare id. */
  function AdoptedNameAsWritten(other: map<Name, Sha1>, f: Name): string
    requires f in other
  {
    other[f] + ".txt"
  }

  /** The entry as written names no blob: it is four characters longer than
      every blob id. */
  lemma AdoptedNameNamesNoBlob(other: map<Name, Sha1>, f: Name, blobs: map<string, string>)
    requires f in other && BlobIds(blobs)
    ensures |AdoptedNameAsWritten(other, f)| == IdLength + 4
    ensures AdoptedNameAsWritten(other, f) != other[f]
    ensures AdoptedNameAsWritten(other, f) !in blobs
  {
    assert |AdoptedNameAsWritten(other, f)| != IdLength;
  }

  /** What the entry as written leads to. commit(true) runs addBlobs, whose
      second loop finds no blob file for "<id>.txt" and creates one holding
      the text of the working file `f` (WriteBlobs). Here `blobs` is the blob
      folder before that loop and `after` one the loop leaves without
      throwing, as WriteBlobs states it, for a snapshot in which no other
      name holds the same entry. Then the working file must exist (a deleted
      one makes the loop throw), and the merge commit records for `f` the
      working text, not the given branch's: a change made only in the given
      branch is silently lost. */
  lemma AdoptedAsWrittenKeepsWorkingText(f: Name, other: map<Name, Sha1>, contents: map<Name, string>,
                                         blobs: map<string, string>, after: map<string, string>,
                                         wd: map<Name, string>)
    requires f in other && other[f] in blobs && BlobIds(blobs)
    requires f in contents && contents[f] == AdoptedNameAsWritten(other, f)
    requires forall n :: n in contents && n != f ==> contents[n] != contents[f]
    requires forall id :: id in blobs ==> id in after && after[id] == blobs[id]
    requires forall n :: n in contents ==> contents[n] in after
    requires forall id :: id in after && id !in blobs ==>
               exists n :: n in contents && contents[n] == id && n in wd && after[id] == wd[n]
    ensures f in wd
    ensures contents[f] in after && after[contents[f]] == wd[f]
    ensures Some(after[contents[f]]) == Version(other, blobs, f) <==> wd[f] == blobs[other[f]]
  {
    AdoptedNameNamesNoBlob(other, f, blobs);
    var n :| n in contents && contents[n] == contents[f] && n in wd && after[contents[f]] == wd[n];
    assert n == f;
  }

  /** The entry the model stores instead, the given branch's blob id: the
      adopted name then reads the given branch's text. */
  lemma AdoptedKeepsGivenVersion(cur: map<Name, Sha1>, f: Name, other: map<Name, Sha1>,
                                 blobs: map<string, string>, sha1: string -> Sha1)
    requires f in other
    ensures Version(AppliedEntry(cur, f, Adopt, other, blobs, sha1), blobs, f) == Version(other, blobs, f)
  {
  }

  /** Handling one more name of the plan applies its action to the
      snapshot. */
  lemma SplitResolvedApplied(f: Name, done: set<Name>, c1: map<Name, Sha1>, plan: map<Name, Resolution>,
                             other: map<Name, Sha1>, blobs: map<string, string>, sha1: string -> Sha1)
    requires f !in done && f in plan && (plan[f] == Adopt ==> f in other)
    ensures SplitResolved(done + {f}, c1, plan, other, blobs, sha1)
            == AppliedEntry(SplitResolved(done, c1, plan, other, blobs, sha1), f, plan[f], other, blobs, sha1)
  {
    var before := SplitResolved(done, c1, plan, other, blobs, sha1);
    SplitResolvedStep(f, done, c1, plan, other, blobs, sha1);
    assert Version(before, blobs, f) == Version(c1, blobs, f);
  }


  lemma ConflictTextsStep(f: Name, conflicts: set<Name>, c: map<Name, Sha1>, other: map<Name, Sha1>,
                          blobs: map<string, string>)
    ensures ConflictTexts(conflicts + {f}, c, other, blobs)
            == ConflictTexts(conflicts, c, other, blobs) + {ConflictText(c, other, blobs, f)}
  {
  }

  lemma HandledStep(f: Name, done: set<Name>, plan: map<Name, Resolution>, a: Resolution)
    ensures Handled(done + {f}, plan, a)
            == Handled(done, plan, a) + (if f in plan && plan[f] == a then {f} else {})
  {
  }

  lemma CwdConflictsStep(f: Name, done: set<Name>, c2: map<Name, Sha1>, split: map<Name, Sha1>,
                         other: map<Name, Sha1>, blobs: map<string, string>, wd: map<Name, string>)
    ensures CwdConflicts(done + {f}, c2, split, other, blobs, wd)
            == CwdConflicts(done, c2, split, other, blobs, wd)
               + (if CwdConflict(f, c2, split, other, blobs, wd) then {f} else {})
  {
  }

  /** Replacing one more name by its conflict blob changes only that name's
      entry, and a name not replaced keeps its entry. */
  lemma WithConflictsStep(f: Name, conflicts: set<Name>, c2: map<Name, Sha1>, other: map<Name, Sha1>,
                          blobs: map<string, string>, sha1: string -> Sha1)
    requires f !in conflicts
    ensures var w := WithConflicts(conflicts, c2, other, blobs, sha1);
            && (f in w <==> f in c2) && (f in c2 ==> w[f] == c2[f])
            && WithConflicts(conflicts + {f}, c2, other, blobs, sha1) == w[f := sha1(ConflictText(c2, other, blobs, f))]
  {
    var w := WithConflicts(conflicts, c2, other, blobs, sha1);
    var w2 := WithConflicts(conflicts + {f}, c2, other, blobs, sha1);
    assert w2.Keys == w.Keys + {f};
    UpdatedAt(w, w2, f, Some(sha1(ConflictText(c2, other, blobs, f))));
  }

  /** Conflict blobs written in two rounds. */
  lemma BlobsExtendedTrans(b0: map<string, string>, b1: map<string, string>, b2: map<string, string>,
                           t1: set<string>, t2: set<string>, sha1: string -> Sha1)
    requires BlobsExtended(b0, b1, t1, sha1) && BlobsExtended(b1, b2, t2, sha1)
    ensures BlobsExtended(b0, b2, t1 + t2, sha1)
  {
    forall id | id in b2
      ensures (id in b0 && b2[id] == b0[id]) || exists t :: t in t1 + t2 && id == sha1(t) && b2[id] == t
    {
      if id in b1 && b2[id] == b1[id] {
        if !(id in b0 && b1[id] == b0[id]) {
          var t :| t in t1 && id == sha1(t) && b1[id] == t;
          assert t in t1 + t2;
        }
      } else {
        var t :| t in t2 && id == sha1(t) && b2[id] == t;
        assert t in t1 + t2;
      }
    }
  }

  /** Writing one more conflict blob keeps the folder extended. */
  lemma BlobsExtendedStep(before: map<string, string>, mid: map<string, string>, after: map<string, string>,
                          texts: set<string>, t: string, sha1: string -> Sha1)
    requires BlobsExtended(before, mid, texts, sha1)
    requires after == mid[sha1(t) := t]
    ensures BlobsExtended(before, after, texts + {t}, sha1)
  {
  }

  /** Every blob id the second loop leaves in the snapshot comes from the
      first loop's snapshot, from the given branch, or from a conflict
      text it wrote. */
  lemma SplitResolvedTracked(done: set<Name>, c1: map<Name, Sha1>, plan: map<Name, Resolution>,
                             other: map<Name, Sha1>, blobs: map<string, string>, sha1: string -> Sha1,
                             after: map<string, string>)
    requires forall n :: n in c1 ==> c1[n] in after
    requires forall n :: n in other ==> other[n] in after
    requires forall t :: t in ConflictTexts(Handled(done, plan, Conflict), c1, other, blobs) ==> sha1(t) in after
    ensures var m := SplitResolved(done, c1, plan, other, blobs, sha1);
            forall n :: n in m ==> m[n] in after
  {
    var m := SplitResolved(done, c1, plan, other, blobs, sha1);
    forall n | n in m
      ensures m[n] in after
    {
      if n in done && n in plan && plan[n] == Conflict {
        assert n in Handled(done, plan, Conflict);
        assert ConflictText(c1, other, blobs, n) in ConflictTexts(Handled(done, plan, Conflict), c1, other, blobs);
      }
    }
  }

  /** Every blob id the merged snapshot holds comes from the current
      snapshot, from the given branch, or from a conflict text. */
  lemma MergedTracked(cur: map<Name, Sha1>, split: map<Name, Sha1>, other: map<Name, Sha1>,
                      blobs: map<string, string>, wd: map<Name, string>, sha1: string -> Sha1,
                      after: map<string, string>)
    requires forall n :: n in cur ==> cur[n] in after
    requires forall n :: n in other ==> other[n] in after
    requires forall t :: t in MergeConflictTexts(cur, split, other, blobs, wd, sha1) ==> sha1(t) in after
    ensures var m := Merged(cur, split, other, blobs, wd, sha1);
            forall n :: n in m ==> m[n] in after
  {
    var c1 := GivenAdded(cur, split, other);
    var plan := Plan(c1, split, other, blobs, wd);
    var c2 := SplitDone(cur, split, other, blobs, wd, sha1);
    var conflicts := CwdConflicts(wd.Keys, c2, split, other, blobs, wd);
    SplitResolvedTracked(split.Keys, c1, plan, other, blobs, sha1, after);
    WithConflictsTracked(conflicts, c2, other, blobs, sha1, after);
  }

  /** Every blob id the third loop leaves in the snapshot was there before
      or comes from a conflict text it wrote. */
  lemma WithConflictsTracked(conflicts: set<Name>, c2: map<Name, Sha1>, other: map<Name, Sha1>,
                             blobs: map<string, string>, sha1: string -> Sha1, after: map<string, string>)
    requires forall n :: n in c2 ==> c2[n] in after
    requires forall t :: t in ConflictTexts(conflicts, c2, other, blobs) ==> sha1(t) in after
    ensures var m := WithConflicts(conflicts, c2, other, blobs, sha1);
            forall n :: n in m ==> m[n] in after
  {
    forall n | n in conflicts
      ensures sha1(ConflictText(c2, other, blobs, n)) in after
    {
      assert ConflictText(c2, other, blobs, n) in ConflictTexts(conflicts, c2, other, blobs);
    }
  }

  /** Conflict blobs keep the blob folder closed under the stored commits,
      and keep every blob named by a full SHA-1. */
  lemma ExtendedKeepsClosed(commits: map<string, CommitData>, before: map<string, string>,
                            after: map<string, string>, texts: set<string>, sha1: string -> Sha1)
    requires BlobsClosed(commits, before) && BlobIds(before)
    requires BlobsExtended(before, after, texts, sha1)
    ensures BlobsClosed(commits, after) && BlobIds(after)
  {
    forall id | id in after
      ensures |id| == IdLength
    {
      if !(id in before && after[id] == before[id]) {
        var t :| t in texts && id == sha1(t) && after[id] == t;
      }
    }
  }

  /** The second loop's progress once the split point names in `done` are
      handled, starting from snapshot `c1`, exceptions `exc0`, deletions
      `del0`, conflict flag `conf0` and blob folder `blobs0`: `now` is the
      commit's bookkeeping and `blobsNow` the blob folder. */
  ghost predicate SplitProgress(now: Resolved, blobsNow: map<string, string>, sha1: string -> Sha1,
                                done: set<Name>, c1: map<Name, Sha1>, plan: map<Name, Resolution>,
                                other: map<Name, Sha1>, blobs: map<string, string>,
                                exc0: set<Name>, del0: set<Name>, conf0: bool, blobs0: map<string, string>)
  {
    && now.contents == SplitResolved(done, c1, plan, other, blobs, sha1)
    && now.exceptions == exc0 + Handled(done, plan, Except)
    && now.delFromMerge == del0 + Handled(done, plan, Delete)
    && now.hasConflict == (conf0 || Handled(done, plan, Conflict) != {})
    && BlobsExtended(blobs0, blobsNow, ConflictTexts(Handled(done, plan, Conflict), c1, other, blobs), sha1)
  }

  /** One more split point name handled, as ResolveSplitName leaves the
      bookkeeping, keeps SplitProgress. */
  lemma SplitProgressStep(before: Resolved, after: Resolved, blobsBefore: map<string, string>,
                          blobsAfter: map<string, string>, sha1: string -> Sha1,
                          f: Name, done: set<Name>, c1: map<Name, Sha1>, plan: map<Name, Resolution>,
                          other: map<Name, Sha1>, blobs: map<string, string>,
                          exc0: set<Name>, del0: set<Name>, conf0: bool, blobs0: map<string, string>)
    requires f in plan && f !in done
    requires SplitProgress(before, blobsBefore, sha1, done, c1, plan, other, blobs, exc0, del0, conf0, blobs0)
    requires after.contents == SplitResolved(done + {f}, c1, plan, other, blobs, sha1)
    requires after.exceptions == before.exceptions + (if plan[f] == Except then {f} else {})
    requires after.delFromMerge == before.delFromMerge + (if plan[f] == Delete then {f} else {})
    requires after.hasConflict == (before.hasConflict || plan[f] == Conflict)
    requires blobsAfter == if plan[f] == Conflict
                           then blobsBefore[sha1(ConflictText(c1, other, blobs, f)) := ConflictText(c1, other, blobs, f)]
                           else blobsBefore
    ensures SplitProgress(after, blobsAfter, sha1, done + {f}, c1, plan, other, blobs, exc0, del0, conf0, blobs0)
  {
    HandledStep(f, done, plan, Except);
    HandledStep(f, done, plan, Delete);
    HandledStep(f, done, plan, Conflict);
    if plan[f] == Conflict {
      ConflictTextsStep(f, Handled(done, plan, Conflict), c1, other, blobs);
      BlobsExtendedStep(blobs0, blobsBefore, blobsAfter, ConflictTexts(Handled(done, plan, Conflict), c1, other, blobs),
                        ConflictText(c1, other, blobs, f), sha1);
    }
  }

  /** The third loop's progress once the working files in `done` are
      handled, starting from snapshot `c2`, conflict flag `conf0` and blob
      folder `blobs0`. */
  ghost predicate CwdProgress(cur: map<Name, Sha1>, conflict: bool, blobsNow: map<string, string>,
                              wd: map<Name, string>, sha1: string -> Sha1,
                              done: set<Name>, c2: map<Name, Sha1>, split: map<Name, Sha1>,
                              other: map<Name, Sha1>, blobs: map<string, string>,
                              conf0: bool, blobs0: map<string, string>)
  {
    var conflicts := CwdConflicts(done, c2, split, other, blobs, wd);
    && cur == WithConflicts(conflicts, c2, other, blobs, sha1)
    && conflict == (conf0 || conflicts != {})
    && BlobsExtended(blobs0, blobsNow, ConflictTexts(conflicts, c2, other, blobs), sha1)
  }

  /** One more working file handled, as the third loop's body leaves the
      snapshot, the conflict flag and the blob folder, keeps CwdProgress. */
  lemma CwdProgressStep(before: map<Name, Sha1>, conflictBefore: bool, blobsBefore: map<string, string>,
                        after: map<Name, Sha1>, conflictAfter: bool, blobsAfter: map<string, string>,
                        wd: map<Name, string>, sha1: string -> Sha1,
                        f: Name, done: set<Name>, c2: map<Name, Sha1>, split: map<Name, Sha1>,
                        other: map<Name, Sha1>, blobs: map<string, string>,
                        conf0: bool, blobs0: map<string, string>)
    requires f in wd && f !in done
    requires CwdProgress(before, conflictBefore, blobsBefore, wd, sha1, done, c2, split, other, blobs, conf0, blobs0)
    requires var t := ConflictText(c2, other, blobs, f);
             if CwdConflict(f, c2, split, other, blobs, wd)
             then after == before[f := sha1(t)] && conflictAfter && blobsAfter == blobsBefore[sha1(t) := t]
             else after == before && conflictAfter == conflictBefore && blobsAfter == blobsBefore
    ensures CwdProgress(after, conflictAfter, blobsAfter, wd, sha1, done + {f}, c2, split, other, blobs, conf0, blobs0)
  {
    var conflicts := CwdConflicts(done, c2, split, other, blobs, wd);
    var texts := ConflictTexts(conflicts, c2, other, blobs);
    CwdConflictsStep(f, done, c2, split, other, blobs, wd);
    if CwdConflict(f, c2, split, other, blobs, wd) {
      var t := ConflictText(c2, other, blobs, f);
      assert CwdConflicts(done + {f}, c2, split, other, blobs, wd) == conflicts + {f};
      WithConflictsStep(f, conflicts, c2, other, blobs, sha1);
      assert after == WithConflicts(conflicts + {f}, c2, other, blobs, sha1);
      ConflictTextsStep(f, conflicts, c2, other, blobs);
      BlobsExtendedStep(blobs0, blobsBefore, blobsAfter, texts, t, sha1);
      assert BlobsExtended(blobs0, blobsAfter, ConflictTexts(conflicts + {f}, c2, other, blobs), sha1);
    } else {
      assert CwdConflicts(done + {f}, c2, split, other, blobs, wd) == conflicts;
    }
  }

  /** Setting a key to the value it already has changes nothing. */
  lemma MapUpdateSame<K, V>(m: map<K, V>, k: K)
    requires k in m
    ensures m[k := m[k]] == m
  {
  }

  /** After the merge commit `c` was stored and reset(true) to it: `c` is
      filed under its id, the current branch points at it, the working
      directory is its checkout with its exceptions kept, and the stage is
      empty. */
  ghost predicate CheckedOutMerge(r: Repository, c: CommitData, commits0: map<string, CommitData>,
                                  branches0: map<string, string>, wd0: map<Name, string>)
    reads r
  {
    && r.commits == commits0[r.commitId(c) := c]
    && r.Ready() && r.HeadCommit() == c
    && r.branches == branches0[r.head := r.commitId(c)]
    && BlobsPresent(c, r.blobs)
    && r.wd == ResetCommand.AfterReset(c, r.blobs, wd0, true)
    && r.stageAdd == map[] && r.stageRm == map[]
  }

  class Commit {
    var parent: Option<string>
    var mergeParent: Option<string>
    var contents: map<Name, Sha1>
    var exceptions: set<Name>
    var delFromMerge: set<Name>
    var message: string
    var branch: string
    /** The clock reading taken by the constructor. */
    var date: int
    var hasConflict: bool

    /** The commit as it is serialized into the commits folder. */
    function Data(): CommitData
      reads this
    {
      CommitData(parent, mergeParent, contents, exceptions, delFromMerge, message, branch, date, hasConflict)
    }

    /** The snapshot with the merge's bookkeeping. */
    function Resolution(): Resolved
      reads this
    {
      Resolved(contents, exceptions, delFromMerge, hasConflict)
    }

    /** Commit(parent, message, branch): the snapshot starts as a copy of the
        parent's, entry by entry, and is empty without a parent; `now` is
        the clock reading new Date() takes. */
    constructor (parent: Option<string>, message: string, branch: string, now: int, r: Repository)
      requires r.Valid() && (parent.Some? ==> parent.value in r.commits)
      ensures Data() == CommitData(parent, None,
                                   if parent.Some? then r.commits[parent.value].contents else map[],
                                   {}, {}, message, branch, now, false)
    {
      var copied: map<Name, Sha1> := map[];
      if parent.Some? {
        var from := r.commits[parent.value].contents;
        var todo := from.Keys;
        while todo != {}
          invariant todo <= from.Keys
          invariant copied == map n | n in from && n !in todo :: from[n]
          decreases todo
        {
          var n :| n in todo;
          copied := copied[n := from[n]];
          todo := todo - {n};
        }
      }
      this.message := message;
      this.branch := branch;
      this.date := now;
      this.parent := parent;
      this.mergeParent := None;
      contents := copied;
      exceptions := {};
      delFromMerge := {};
      hasConflict := false;
    }

    /** The first loop of addBlobs: each staged name is mapped to the SHA-1
        of its staged text. */
    method TrackStaged(r: Repository, added: map<Name, string>)
      modifies this`contents
      ensures contents == old(contents) + map n | n in added :: r.sha1(added[n])
    {
      var todo := added.Keys;
      while todo != {}
        invariant todo <= added.Keys
        invariant contents == old(contents) + map n | n in added && n !in todo :: r.sha1(added[n])
        decreases todo
      {
        var n :| n in todo;
        contents := contents[n := r.sha1(added[n])];
        todo := todo - {n};
      }
    }

    /** The second loop of addBlobs: every tracked id without a blob file gets
        one, holding the text of the working file of that name (not the
        staged copy). A missing working file throws after the empty blob file
        was created. */
    method WriteBlobs(r: Repository) returns (missing: bool)
      modifies r`blobs
      ensures r.commits == old(r.commits) && r.branches == old(r.branches) && r.depth == old(r.depth)
              && r.head == old(r.head) && r.wd == old(r.wd) && r.stageAdd == old(r.stageAdd)
              && r.stageRm == old(r.stageRm)
      ensures forall id :: id in old(r.blobs) ==> id in r.blobs && r.blobs[id] == old(r.blobs)[id]
      ensures forall id :: id in r.blobs && id !in old(r.blobs) ==>
                exists n :: n in contents && contents[n] == id
                            && r.blobs[id] == (if n in r.wd then r.wd[n] else "")
      ensures !missing ==> forall n :: n in contents ==> contents[n] in r.blobs
      ensures !missing ==> forall id :: id in r.blobs && id !in old(r.blobs) ==>
                exists n :: n in contents && contents[n] == id && n in r.wd && r.blobs[id] == r.wd[n]
      ensures missing ==> exists n :: n in contents && contents[n] !in old(r.blobs) && n !in r.wd
    {
      var todo := contents.Keys;
      while todo != {}
        invariant todo <= contents.Keys
        invariant forall id :: id in old(r.blobs) ==> id in r.blobs && r.blobs[id] == old(r.blobs)[id]
        invariant forall id :: id in r.blobs && id !in old(r.blobs) ==>
                    exists n :: n in contents && contents[n] == id && n in r.wd && r.blobs[id] == r.wd[n]
        invariant forall n :: n in contents.Keys - todo ==> contents[n] in r.blobs
        decreases todo
      {
        var n :| n in todo;
        var id := contents[n];
        if id !in r.blobs {
          if n !in r.wd {
            r.blobs := r.blobs[id := ""];
            return true;
          }
          r.blobs := r.blobs[id := r.wd[n]];
        }
        todo := todo - {n};
      }
      missing := false;
    }

    /** addBlobs(stage): both loops. Existing blob files are never
        rewritten. */
    method AddBlobs(r: Repository, added: map<Name, string>) returns (missing: bool)
      modifies this`contents, r`blobs
      ensures r.commits == old(r.commits) && r.branches == old(r.branches) && r.depth == old(r.depth)
              && r.head == old(r.head) && r.wd == old(r.wd) && r.stageAdd == old(r.stageAdd)
              && r.stageRm == old(r.stageRm)
      ensures contents == old(contents) + map n | n in added :: r.sha1(added[n])
      ensures forall id :: id in old(r.blobs) ==> id in r.blobs && r.blobs[id] == old(r.blobs)[id]
      ensures forall id :: id in r.blobs && id !in old(r.blobs) ==>
                exists n :: n in contents && contents[n] == id
                            && r.blobs[id] == (if n in r.wd then r.wd[n] else "")
      ensures !missing ==> forall n :: n in contents ==> contents[n] in r.blobs
      ensures missing ==> exists n :: n in contents && contents[n] !in old(r.blobs) && n !in r.wd
    {
      TrackStaged(r, added);
      missing := WriteBlobs(r);
    }

    /** stopTracking(stage): every name staged for removal is dropped. */
    method StopTracking(removed: set<Name>)
      modifies this`contents
      ensures contents == old(contents) - removed
    {
      var todo := removed;
      while todo != {}
        invariant todo <= removed
        invariant contents == old(contents) - (removed - todo)
        decreases todo
      {
        var n :| n in todo;
        contents := contents - {n};
        todo := todo - {n};
      }
    }

    /** addBlobs, stopTracking and the stage's clear(), as commit() runs
        them. */
    method ApplyStage(r: Repository) returns (missing: bool)
      requires r.Valid()
      modifies this`contents, r`blobs, r`stageAdd, r`stageRm
      ensures r.Valid()
      ensures exceptions == old(exceptions) && delFromMerge == old(delFromMerge) && hasConflict == old(hasConflict)
      ensures parent == old(parent) && mergeParent == old(mergeParent)
      ensures r.commits == old(r.commits) && r.branches == old(r.branches) && r.depth == old(r.depth)
      ensures r.head == old(r.head) && r.wd == old(r.wd)
      ensures forall id :: id in old(r.blobs) ==> id in r.blobs && r.blobs[id] == old(r.blobs)[id]
      ensures missing ==>
                && contents == old(contents) + (map n | n in old(r.stageAdd) :: r.sha1(old(r.stageAdd)[n]))
                && (exists n :: n in contents && contents[n] !in old(r.blobs) && n !in r.wd)
                && r.stageAdd == old(r.stageAdd) && r.stageRm == old(r.stageRm)
      ensures BlobsPresent(old(Data()), old(r.blobs)) && old(r.stageAdd) == map[]
              ==> !missing
      ensures !missing ==>
                && contents == Snapshot(old(contents), old(r.stageAdd), old(r.stageRm).Keys, r.sha1)
                && BlobsPresent(Data(), r.blobs)
                && r.stageAdd == map[] && r.stageRm == map[]
    {
      missing := AddBlobs(r, r.stageAdd);
      if missing {
        return;
      }
      StopTracking(r.stageRm.Keys);
      Stage.Clear(r);
    }

    /** The end of commit(): the commit file is written under the commit's id
        and the branch HEAD names is set to it. */
    method Store(r: Repository) returns (out: Outcome)
      requires r.Valid() && BlobsPresent(Data(), r.blobs)
      requires parent.Some? ==> parent.value in r.commits
      requires mergeParent.Some? ==> mergeParent.value in r.commits
      modifies r`commits, r`branches, r`depth
      ensures r.Valid()
      ensures r.blobs == old(r.blobs) && r.stageAdd == old(r.stageAdd) && r.stageRm == old(r.stageRm)
      ensures r.head == old(r.head) && r.wd == old(r.wd)
      ensures out == Done || out == Crashed(HashCollision)
      ensures out == Crashed(HashCollision) <==>
                r.commitId(Data()) in old(r.commits) && old(r.commits)[r.commitId(Data())] != Data()
      ensures out == Crashed(HashCollision) ==> r.commits == old(r.commits) && r.branches == old(r.branches)
      ensures out == Done ==>
                && r.Stored(Data())
                && r.commits == old(r.commits)[r.commitId(Data()) := Data()]
                && r.branches == old(r.branches)[r.head := r.commitId(Data())]
    {
      var id := r.commitId(Data());
      if id in r.commits && r.commits[id] != Data() {
        return Crashed(HashCollision);
      }
      if id !in r.commits {
        r.Save(Data());
      }
      r.SetHead(Data(), r.head);
      out := Done;
    }

    /** commit() once the stage was found non-empty or ignored. */
    method ApplyAndStore(r: Repository) returns (out: Outcome)
      requires r.Valid()
      requires parent.Some? ==> parent.value in r.commits
      requires mergeParent.Some? ==> mergeParent.value in r.commits
      modifies this`contents, r`blobs, r`stageAdd, r`stageRm, r`commits, r`branches, r`depth
      ensures r.Valid()
      ensures out == Done || out == Crashed(MissingFile) || out == Crashed(HashCollision)
      ensures exceptions == old(exceptions) && delFromMerge == old(delFromMerge) && hasConflict == old(hasConflict)
      ensures parent == old(parent) && mergeParent == old(mergeParent) && r.head == old(r.head) && r.wd == old(r.wd)
      ensures out == Crashed(MissingFile) ==>
                exists n :: (n in old(contents) || n in old(r.stageAdd)) && n !in r.wd
      ensures BlobsPresent(old(Data()), old(r.blobs)) && old(r.stageAdd) == map[]
              ==> out != Crashed(MissingFile)
      ensures out == Crashed(HashCollision) ==>
                r.commitId(Data()) in old(r.commits) && old(r.commits)[r.commitId(Data())] != Data()
      ensures forall id :: id in old(r.blobs) ==> id in r.blobs && r.blobs[id] == old(r.blobs)[id]
      ensures out == Done ==>
                && contents == Snapshot(old(contents), old(r.stageAdd), old(r.stageRm).Keys, r.sha1)
                && r.Stored(Data())
                && r.commits == old(r.commits)[r.commitId(Data()) := Data()]
                && r.branches == old(r.branches)[r.head := r.commitId(Data())]
                && r.stageAdd == map[] && r.stageRm == map[]
    {
      var missing := ApplyStage(r);
      if missing {
        return Crashed(MissingFile);
      }
      out := Store(r);
    }

    /** commit(ignoreStage): with an empty stage and no override only a
        message. Otherwise the staged additions and removals are applied,
        the stage is cleared, the commit is filed under its id and the branch
        HEAD names points at it. gitlet's Java code overwrites a stored commit whose
        id it shares; the model stops instead (a commit filed under another
        commit's id would break the parent chains). */
    method Record(r: Repository, ignoreStage: bool) returns (out: Outcome)
      requires r.Valid()
      requires parent.Some? ==> parent.value in r.commits
      requires mergeParent.Some? ==> mergeParent.value in r.commits
      modifies this`contents, r`blobs, r`stageAdd, r`stageRm, r`commits, r`branches, r`depth
      ensures message == old(message) && branch == old(branch) && date == old(date)
      ensures r.Valid()
      ensures exceptions == old(exceptions) && delFromMerge == old(delFromMerge) && hasConflict == old(hasConflict)
      ensures parent == old(parent) && mergeParent == old(mergeParent) && r.head == old(r.head) && r.wd == old(r.wd)
      ensures out.Failed? <==> old(r.stageAdd) == map[] && old(r.stageRm) == map[] && !ignoreStage
      ensures out.Failed? ==>
                && out == Failed([NoChanges])
                && contents == old(contents) && r.blobs == old(r.blobs) && r.commits == old(r.commits)
                && r.branches == old(r.branches)
                && r.stageAdd == old(r.stageAdd) && r.stageRm == old(r.stageRm)
      ensures out.Crashed? ==> out == Crashed(MissingFile) || out == Crashed(HashCollision)
      ensures out == Crashed(MissingFile) ==>
                exists n :: (n in old(contents) || n in old(r.stageAdd)) && n !in r.wd
      ensures BlobsPresent(old(Data()), old(r.blobs)) && old(r.stageAdd) == map[]
              ==> out != Crashed(MissingFile)
      ensures out == Crashed(HashCollision) ==>
                r.commitId(Data()) in old(r.commits) && old(r.commits)[r.commitId(Data())] != Data()
      ensures forall id :: id in old(r.blobs) ==> id in r.blobs && r.blobs[id] == old(r.blobs)[id]
      ensures out == Done ==>
                && contents == Snapshot(old(contents), old(r.stageAdd), old(r.stageRm).Keys, r.sha1)
                && r.Stored(Data())
                && r.commits == old(r.commits)[r.commitId(Data()) := Data()]
                && r.branches == old(r.branches)[r.head := r.commitId(Data())]
                && r.stageAdd == map[] && r.stageRm == map[]
    {
      if r.stageAdd == map[] && r.stageRm == map[] && !ignoreStage {
        return Failed([NoChanges]);
      }
      out := ApplyAndStore(r);
    }

    /** mergeConflict(f, other): the conflict text is written to the blob
        named by its SHA-1, which the snapshot now tracks for `f`. The two
        sides are read from `blobs`, the blob texts as the merge found
        them. */
    method MergeConflict(r: Repository, f: Name, other: map<Name, Sha1>, blobs: map<string, string>)
      modifies this`contents, this`hasConflict, r`blobs
      ensures r.commits == old(r.commits) && r.branches == old(r.branches) && r.depth == old(r.depth)
              && r.head == old(r.head) && r.stageAdd == old(r.stageAdd) && r.stageRm == old(r.stageRm)
      ensures exceptions == old(exceptions) && delFromMerge == old(delFromMerge) && r.wd == old(r.wd)
      ensures hasConflict
      ensures contents == old(contents)[f := r.sha1(ConflictText(old(contents), other, blobs, f))]
      ensures r.blobs == old(r.blobs)[r.sha1(ConflictText(old(contents), other, blobs, f))
                                      := ConflictText(old(contents), other, blobs, f)]
    {
      hasConflict := true;
      var current := Version(contents, blobs, f);
      var fromBranch := Version(other, blobs, f);
      var cContents := "";
      var otherContents := "";
      if current.Some? {
        cContents := current.value;
      }
      if fromBranch.Some? {
        otherContents := fromBranch.value;
      }
      var mergeContents := "<<<<<<< HEAD\n" + cContents + "=======\n" + otherContents + ">>>>>>>\n";
      var newName := r.sha1(mergeContents);
      contents := contents[f := newName];
      r.blobs := r.blobs[newName := mergeContents];
    }

    /** The first loop of resolveFilesAtSplitPoint, over the given branch's
        names: a name only the given branch tracks is adopted. */
    method AdoptGiven(split: map<Name, Sha1>, other: map<Name, Sha1>)
      modifies this`contents
      ensures contents == GivenAdded(old(contents), split, other)
    {
      var todo := other.Keys;
      AdoptedNone(contents, split, other);
      while todo != {}
        invariant todo <= other.Keys
        invariant contents == AdoptedExcept(old(contents), split, other, todo)
        decreases todo
      {
        var f :| f in todo;
        AdoptStep(old(contents), split, other, todo, f);
        if OnlyInGivenBranch(f, contents, split, other) {
          contents := contents[f := other[f]];
        }
        todo := todo - {f};
      }
      AdoptedAll(old(contents), split, other);
    }

    /** One pass of the second loop, for a split point name `f` not handled
        yet; `contents` stands as the names in `done` left it. */
    method ResolveSplitName(r: Repository, f: Name, ghost done: set<Name>, ghost c1: map<Name, Sha1>,
                            ghost plan: map<Name, Resolution>,
                            split: map<Name, Sha1>, other: map<Name, Sha1>, blobs: map<string, string>)
      requires f in plan && f !in done && plan[f] == AtSplit(f, c1, split, other, blobs, r.wd)
      requires contents == SplitResolved(done, c1, plan, other, blobs, r.sha1)
      modifies this`contents, this`exceptions, this`delFromMerge, this`hasConflict, r`blobs
      ensures r.commits == old(r.commits) && r.branches == old(r.branches) && r.depth == old(r.depth)
              && r.head == old(r.head) && r.wd == old(r.wd) && r.stageAdd == old(r.stageAdd)
              && r.stageRm == old(r.stageRm)
      ensures contents == SplitResolved(done + {f}, c1, plan, other, blobs, r.sha1)
      ensures exceptions == old(exceptions) + (if plan[f] == Except then {f} else {})
      ensures delFromMerge == old(delFromMerge) + (if plan[f] == Delete then {f} else {})
      ensures hasConflict == (old(hasConflict) || plan[f] == Conflict)
      ensures r.blobs == if plan[f] == Conflict
                         then old(r.blobs)[r.sha1(ConflictText(c1, other, blobs, f)) := ConflictText(c1, other, blobs, f)]
                         else old(r.blobs)
    {
      SameEntry(f, contents, c1, split, other, blobs, r.wd);
      SplitResolvedApplied(f, done, c1, plan, other, blobs, r.sha1);
      var action := AtSplit(f, contents, split, other, blobs, r.wd);
      ApplyAtSplit(r, f, action, other, blobs);
    }

    /** One pass of the second loop's body: the first test that holds picks
        what happens to `f`. */
    method ApplyAtSplit(r: Repository, f: Name, action: Resolution, other: map<Name, Sha1>,
                        blobs: map<string, string>)
      requires action == Adopt ==> f in other
      modifies this`contents, this`exceptions, this`delFromMerge, this`hasConflict, r`blobs
      ensures r.commits == old(r.commits) && r.branches == old(r.branches) && r.depth == old(r.depth)
              && r.head == old(r.head) && r.wd == old(r.wd) && r.stageAdd == old(r.stageAdd)
              && r.stageRm == old(r.stageRm)
      ensures contents == AppliedEntry(old(contents), f, action, other, blobs, r.sha1)
      ensures exceptions == old(exceptions) + (if action == Except then {f} else {})
      ensures delFromMerge == old(delFromMerge) + (if action == Delete then {f} else {})
      ensures hasConflict == (old(hasConflict) || action == Conflict)
      ensures r.blobs == if action == Conflict
                         then old(r.blobs)[r.sha1(ConflictText(old(contents), other, blobs, f))
                                           := ConflictText(old(contents), other, blobs, f)]
                         else old(r.blobs)
    {
      if action == Adopt {
        // gitlet's Java code stores other.getVersionOf(f).getName(), the blob's file
        // name "<id>.txt" (AdoptedNameAsWritten); the id is stored here.
        contents := contents[f := other[f]];
      } else if action == Except {
        exceptions := exceptions + {f};
      } else if action == Delete {
        contents := contents - {f};
        delFromMerge := delFromMerge + {f};
      } else if action == Conflict {
        MergeConflict(r, f, other, blobs);
      }
    }

    /** ResolveSplitName, with the loop's bookkeeping. */
    method ResolveSplitStep(r: Repository, f: Name, ghost done: set<Name>, ghost c1: map<Name, Sha1>,
                            ghost plan: map<Name, Resolution>,
                            split: map<Name, Sha1>, other: map<Name, Sha1>, blobs: map<string, string>,
                            ghost exc0: set<Name>, ghost del0: set<Name>, ghost conf0: bool,
                            ghost blobs0: map<string, string>)
      requires f in plan && f !in done && plan[f] == AtSplit(f, c1, split, other, blobs, r.wd)
      requires SplitProgress(Resolved(contents, exceptions, delFromMerge, hasConflict), r.blobs, r.sha1,
                             done, c1, plan, other, blobs, exc0, del0, conf0, blobs0)
      modifies this`contents, this`exceptions, this`delFromMerge, this`hasConflict, r`blobs
      ensures r.commits == old(r.commits) && r.branches == old(r.branches) && r.depth == old(r.depth)
              && r.head == old(r.head) && r.wd == old(r.wd) && r.stageAdd == old(r.stageAdd)
              && r.stageRm == old(r.stageRm)
      ensures SplitProgress(Resolved(contents, exceptions, delFromMerge, hasConflict), r.blobs, r.sha1,
                            done + {f}, c1, plan, other, blobs, exc0, del0, conf0, blobs0)
    {
      ghost var before := Resolved(contents, exceptions, delFromMerge, hasConflict);
      ghost var blobsBefore := r.blobs;
      ResolveSplitName(r, f, done, c1, plan, split, other, blobs);
      SplitProgressStep(before, Resolved(contents, exceptions, delFromMerge, hasConflict), blobsBefore, r.blobs,
                        r.sha1, f, done, c1, plan, other, blobs, exc0, del0, conf0, blobs0);
    }

    /** The second loop of resolveFilesAtSplitPoint, over the split point's
        names: each is adopted from the given branch, kept as an exception,
        deleted, or marked as a conflict, by the first test that holds. */
    method ResolveSplit(r: Repository, split: map<Name, Sha1>, other: map<Name, Sha1>, blobs: map<string, string>,
                        ghost plan: map<Name, Resolution>)
      requires plan.Keys == split.Keys
      requires forall f {:trigger AtSplit(f, contents, split, other, blobs, r.wd)} ::
                 f in plan ==> plan[f] == AtSplit(f, contents, split, other, blobs, r.wd)
      modifies this`contents, this`exceptions, this`delFromMerge, this`hasConflict, r`blobs
      ensures r.commits == old(r.commits) && r.branches == old(r.branches) && r.depth == old(r.depth)
              && r.head == old(r.head) && r.wd == old(r.wd) && r.stageAdd == old(r.stageAdd)
              && r.stageRm == old(r.stageRm)
      ensures SplitProgress(Resolved(contents, exceptions, delFromMerge, hasConflict), r.blobs, r.sha1,
                            split.Keys, old(contents), plan, other, blobs,
                            old(exceptions), old(delFromMerge), old(hasConflict), old(r.blobs))
    {
      ghost var c1, exc0, del0, conf0, blobs0 := contents, exceptions, delFromMerge, hasConflict, r.blobs;
      ghost var done: set<Name> := {};
      var todo := split.Keys;
      SplitResolvedNone(c1, plan, other, blobs, r.sha1);
      while todo != {}
        invariant todo <= split.Keys && done == split.Keys - todo
        invariant SplitProgress(Resolved(contents, exceptions, delFromMerge, hasConflict), r.blobs, r.sha1,
                                done, c1, plan, other, blobs, exc0, del0, conf0, blobs0)
        invariant r.wd == old(r.wd) && r.commits == old(r.commits) && r.branches == old(r.branches)
        invariant r.depth == old(r.depth) && r.head == old(r.head)
        invariant r.stageAdd == old(r.stageAdd) && r.stageRm == old(r.stageRm)
        decreases todo
      {
        var f :| f in todo;
        assert plan[f] == AtSplit(f, c1, split, other, blobs, r.wd);
        ResolveSplitStep(r, f, done, c1, plan, split, other, blobs, exc0, del0, conf0, blobs0);
        done := done + {f};
        todo := todo - {f};
      }
      assert done == split.Keys;
    }

    /** One pass of the third loop, for a working file `f` not handled
        yet. */
    method ResolveCwdName(r: Repository, f: Name, ghost done: set<Name>, ghost c2: map<Name, Sha1>,
                          split: map<Name, Sha1>, other: map<Name, Sha1>, blobs: map<string, string>,
                          ghost conf0: bool, ghost blobs0: map<string, string>)
      requires f in r.wd && f !in done
      requires CwdProgress(contents, hasConflict, r.blobs, r.wd, r.sha1,
                           done, c2, split, other, blobs, conf0, blobs0)
      modifies this`contents, this`hasConflict, r`blobs
      ensures r.commits == old(r.commits) && r.branches == old(r.branches) && r.depth == old(r.depth)
              && r.head == old(r.head) && r.wd == old(r.wd) && r.stageAdd == old(r.stageAdd)
              && r.stageRm == old(r.stageRm)
      ensures CwdProgress(contents, hasConflict, r.blobs, r.wd, r.sha1,
                          done + {f}, c2, split, other, blobs, conf0, blobs0)
    {
      SameEntry(f, contents, c2, split, other, blobs, r.wd);
      ghost var before, conflictBefore, blobsBefore := contents, hasConflict, r.blobs;
      if f !in split && InConflict(f, contents, split, other, blobs) {
        MergeConflict(r, f, other, blobs);
      }
      CwdProgressStep(before, conflictBefore, blobsBefore, contents, hasConflict, r.blobs, r.wd, r.sha1,
                      f, done, c2, split, other, blobs, conf0, blobs0);
    }

    /** The third loop of resolveFilesAtSplitPoint, over the working
        directory's files: a file the split point does not track is marked
        as a conflict when inConflict holds. */
    method ResolveCwd(r: Repository, split: map<Name, Sha1>, other: map<Name, Sha1>, blobs: map<string, string>)
      modifies this`contents, this`hasConflict, r`blobs
      ensures r.commits == old(r.commits) && r.branches == old(r.branches) && r.depth == old(r.depth)
              && r.head == old(r.head) && r.wd == old(r.wd) && r.stageAdd == old(r.stageAdd)
              && r.stageRm == old(r.stageRm)
      ensures CwdProgress(contents, hasConflict, r.blobs, r.wd, r.sha1,
                          r.wd.Keys, old(contents), split, other, blobs, old(hasConflict), old(r.blobs))
    {
      ghost var c2 := contents;
      ghost var done: set<Name> := {};
      var todo := r.wd.Keys;
      assert CwdConflicts({}, c2, split, other, blobs, r.wd) == {};
      assert WithConflicts({}, c2, other, blobs, r.sha1) == c2;
      while todo != {}
        invariant todo <= r.wd.Keys && done == r.wd.Keys - todo
        invariant CwdProgress(contents, hasConflict, r.blobs, r.wd, r.sha1,
                              done, c2, split, other, blobs, old(hasConflict), old(r.blobs))
        invariant r.wd == old(r.wd) && r.commits == old(r.commits) && r.branches == old(r.branches)
        invariant r.depth == old(r.depth) && r.head == old(r.head)
        invariant r.stageAdd == old(r.stageAdd) && r.stageRm == old(r.stageRm)
        decreases todo
      {
        var f :| f in todo;
        ResolveCwdName(r, f, done, c2, split, other, blobs, old(hasConflict), old(r.blobs));
        done := done + {f};
        todo := todo - {f};
      }
      assert done == r.wd.Keys;
    }

    /** resolveFilesAtSplitPoint(splitPoint, other): the three loops. Every
        question is answered from the blob texts as the merge found them. */
    method ResolveFilesAtSplitPoint(r: Repository, split: CommitData, other: CommitData)
      modifies this`contents, this`exceptions, this`delFromMerge, this`hasConflict, r`blobs
      ensures message == old(message) && branch == old(branch) && date == old(date)
      ensures r.commits == old(r.commits) && r.branches == old(r.branches) && r.depth == old(r.depth)
              && r.head == old(r.head) && r.wd == old(r.wd) && r.stageAdd == old(r.stageAdd)
              && r.stageRm == old(r.stageRm)
      ensures contents == Merged(old(contents), split.contents, other.contents, old(r.blobs), r.wd, r.sha1)
      ensures exceptions == old(exceptions) + MergeExceptions(old(contents), split.contents, other.contents, old(r.blobs), r.wd)
      ensures delFromMerge == old(delFromMerge) + MergeDeletions(old(contents), split.contents, other.contents, old(r.blobs), r.wd)
      ensures hasConflict == (old(hasConflict)
                              || MergeConflicts(old(contents), split.contents, other.contents, old(r.blobs), r.wd, r.sha1))
      ensures BlobsExtended(old(r.blobs), r.blobs,
                            MergeConflictTexts(old(contents), split.contents, other.contents, old(r.blobs), r.wd, r.sha1),
                            r.sha1)
    {
      var blobs := r.blobs;
      AdoptGiven(split.contents, other.contents);
      ghost var c1 := contents;
      ghost var plan := Plan(c1, split.contents, other.contents, blobs, r.wd);
      ResolveSplit(r, split.contents, other.contents, blobs, plan);
      ghost var c2 := contents;
      ghost var b1 := r.blobs;
      ghost var conflicts := CwdConflicts(r.wd.Keys, c2, split.contents, other.contents, blobs, r.wd);
      assert c2 == SplitDone(old(contents), split.contents, other.contents, blobs, r.wd, r.sha1);
      assert exceptions == old(exceptions) + Handled(split.contents.Keys, plan, Except);
      assert delFromMerge == old(delFromMerge) + Handled(split.contents.Keys, plan, Delete);
      ghost var conf1 := hasConflict;
      assert conf1 == (old(hasConflict) || Handled(split.contents.Keys, plan, Conflict) != {});
      ResolveCwd(r, split.contents, other.contents, blobs);
      assert hasConflict == (conf1 || conflicts != {});
      BlobsExtendedTrans(blobs, b1, r.blobs,
                         ConflictTexts(Handled(split.contents.Keys, plan, Conflict), c1, other.contents, blobs),
                         ConflictTexts(conflicts, c2, other.contents, blobs), r.sha1);
    }

    /** resolveFilesAtSplitPoint in a consistent repository: it stays
        consistent, and every blob the merged snapshot names exists when
        every blob of the current one did. */
    method ResolveInRepository(r: Repository, point: CommitData, other: CommitData)
      requires r.Valid() && r.Stored(other)
      modifies this`contents, this`exceptions, this`delFromMerge, this`hasConflict, r`blobs
      ensures message == old(message) && branch == old(branch) && date == old(date)
      ensures r.depth == old(r.depth)
      ensures r.Valid()
      ensures parent == old(parent) && mergeParent == old(mergeParent) && r.commits == old(r.commits)
      ensures r.wd == old(r.wd) && r.stageAdd == old(r.stageAdd) && r.stageRm == old(r.stageRm)
      ensures r.branches == old(r.branches) && r.head == old(r.head)
      ensures Resolution() == MergeResult(old(Resolution()), point.contents, other.contents, old(r.blobs), old(r.wd), r.sha1)
      ensures forall id :: id in old(r.blobs) ==> id in r.blobs
      ensures BlobsPresent(old(Data()), old(r.blobs)) ==> BlobsPresent(Data(), r.blobs)
    {
      ghost var texts := MergeConflictTexts(contents, point.contents, other.contents, r.blobs, r.wd, r.sha1);
      ghost var cur := contents;
      ghost var blobs0 := r.blobs;
      assert BlobsPresent(r.commits[r.commitId(other)], r.blobs);
      ResolveFilesAtSplitPoint(r, point, other);
      ExtendedKeepsClosed(r.commits, blobs0, r.blobs, texts, r.sha1);
      if forall n :: n in cur ==> cur[n] in blobs0 {
        MergedTracked(cur, point.contents, other.contents, blobs0, r.wd, r.sha1, r.blobs);
      }
    }

    /** The end of merge: commit(true), then reset(true) to the new
        commit. Java first builds a ResetCommand for the new commit's id;
        its constructor's untracked-file loop (ResetCommand.java:31-39)
        can print the "untracked file in the way" message once, for a
        working file left as an exception, and marks that command failed,
        which reset(true) does not look at. The model goes to Reset
        directly: the state is the same, and the message is not recorded. */
    method RecordAndReset(r: Repository) returns (out: Outcome, ghost stored: CommitData)
      requires r.Valid()
      requires parent.Some? ==> parent.value in r.commits
      requires mergeParent.Some? ==> mergeParent.value in r.commits
      modifies this`contents, r`blobs, r`wd, r`stageAdd, r`stageRm, r`commits, r`branches, r`depth
      ensures message == old(message) && branch == old(branch) && date == old(date)
      ensures r.Valid() && stored == Data()
      ensures out == Done || out == Crashed(MissingFile) || out == Crashed(HashCollision)
      ensures BlobsPresent(old(Data()), old(r.blobs)) && old(r.stageAdd) == map[]
              ==> out != Crashed(MissingFile)
      ensures out == Done ==> stored.contents == Snapshot(old(contents), old(r.stageAdd), old(r.stageRm).Keys, r.sha1)
      ensures exceptions == old(exceptions) && delFromMerge == old(delFromMerge) && hasConflict == old(hasConflict)
      ensures parent == old(parent) && mergeParent == old(mergeParent) && r.head == old(r.head)
      ensures out == Done ==> CheckedOutMerge(r, stored, old(r.commits), old(r.branches), old(r.wd))
    {
      out := Record(r, true);
      stored := Data();
      if out == Done {
        ghost var branches := r.branches;
        ResetCommand.Reset(r, Data(), true);
        MapUpdateSame(branches, r.head);
        assert parent == stored.parent && mergeParent == stored.mergeParent && contents == stored.contents
               && exceptions == stored.exceptions;
      }
    }

    /** The rest of merge once the split point is known: the files are
        resolved, the commit is recorded with the stage ignored, and
        reset(true) checks it out, keeping the exceptions. */
    method MergeAt(r: Repository, point: CommitData, other: CommitData)
      returns (out: Outcome, ghost merged: map<Name, Sha1>)
      requires r.Ready() && r.Stored(other) && r.Stored(point)
      requires parent.Some? ==> parent.value in r.commits
      requires mergeParent.Some? ==> mergeParent.value in r.commits
      modifies this`contents, this`exceptions, this`delFromMerge, this`hasConflict
      modifies r`blobs, r`wd, r`stageAdd, r`stageRm, r`commits, r`branches, r`depth
      ensures r.Valid() && r.head == old(r.head)
      ensures parent == old(parent) && mergeParent == old(mergeParent)
      ensures message == old(message) && branch == old(branch) && date == old(date)
      ensures Resolved(merged, exceptions, delFromMerge, hasConflict)
              == MergeResult(old(Resolution()), point.contents, other.contents, old(r.blobs), old(r.wd), r.sha1)
      ensures out == Done || out == Crashed(MissingFile) || out == Crashed(HashCollision)
      ensures BlobsPresent(old(Data()), old(r.blobs)) && old(r.stageAdd) == map[]
              ==> out != Crashed(MissingFile)
      ensures out == Done ==> contents == Snapshot(merged, old(r.stageAdd), old(r.stageRm).Keys, r.sha1)
      ensures out == Done ==> CheckedOutMerge(r, Data(), old(r.commits), old(r.branches), old(r.wd))
    {
      ResolveInRepository(r, point, other);
      merged := contents;
      ghost var stored;
      out, stored := RecordAndReset(r);
    }

    /** merge(other, otherBranch): the merge commit's second parent is the
        given branch's head; without a split point to merge from (no common
        ancestor, the given head is the ancestor, or the current branch was
        fast-forwarded) nothing more happens. */
    method Merge(r: Repository, other: CommitData, otherBranch: string, listing: seq<CommitData>)
      returns (split: Split, candidates: map<string, int>, ghost lca: Option<string>, out: Outcome,
               ghost merged: map<Name, Sha1>)
      requires r.Ready() && otherBranch in r.branches && IsListing(listing, r.commits) && r.Stored(other)
      requires parent.Some? ==> parent.value in r.commits
      modifies this`mergeParent, this`contents, this`exceptions, this`delFromMerge, this`hasConflict
      modifies r`blobs, r`wd, r`head, r`stageAdd, r`stageRm, r`commits, r`branches, r`depth
      ensures parent == old(parent) && message == old(message) && branch == old(branch) && date == old(date)
      ensures r.Valid()
      ensures mergeParent == Some(r.commitId(other))
      ensures LeastCandidate(candidates, lca)
      ensures SplitFor(split, lca, old(r.HeadSha1(r.head)), old(r.HeadSha1(otherBranch)), old(r.commits))
      ensures !split.SplitAt? ==>
                && out == Done
                && contents == old(contents) && exceptions == old(exceptions) && delFromMerge == old(delFromMerge)
                && hasConflict == old(hasConflict)
                && r.commits == old(r.commits) && r.branches == old(r.branches) && r.blobs == old(r.blobs)
      ensures !split.SplitAt? && !split.FastForward? ==>
                r.wd == old(r.wd) && r.head == old(r.head) && r.stageAdd == old(r.stageAdd) && r.stageRm == old(r.stageRm)
      ensures split.FastForward? && split.checkout == Done ==>
                r.Ready() && r.head == otherBranch && r.wd == CheckoutCommand.CheckedOut(r.HeadCommit(), r.blobs)
                && r.stageAdd == map[] && r.stageRm == map[]
      ensures split.FastForward? && split.checkout != Done ==>
                split.checkout.Failed?
                && r.wd == old(r.wd) && r.head == old(r.head) && r.stageAdd == old(r.stageAdd) && r.stageRm == old(r.stageRm)
      ensures split.SplitAt? ==>
                && Resolved(merged, exceptions, delFromMerge, hasConflict)
                   == MergeResult(old(Resolution()), split.point.contents, other.contents, old(r.blobs), old(r.wd), r.sha1)
                && (out == Done || out == Crashed(MissingFile) || out == Crashed(HashCollision))
                && (BlobsPresent(old(Data()), old(r.blobs)) && old(r.stageAdd) == map[]
                    ==> out != Crashed(MissingFile))
      ensures split.SplitAt? && out == Done ==>
                && contents == Snapshot(merged, old(r.stageAdd), old(r.stageRm).Keys, r.sha1)
                && r.head == old(r.head)
                && CheckedOutMerge(r, Data(), old(r.commits), old(r.branches), old(r.wd))
    {
      mergeParent := Some(r.commitId(other));
      ghost var data := Data();
      split, candidates, lca := LatestCommonAncestor(r, otherBranch, listing);
      assert Data() == data;
      if !split.SplitAt? {
        return split, candidates, lca, Done, contents;
      }
      out, merged := MergeAt(r, split.point, other);
    }
  }

  /** initialCommit(): a commit with no parent, message "initial commit", on
      "master" and dated at time 0, stored through commit(true) into the
      empty commits folder of a fresh repository. Its stored form, and so
      its id, never depend on the clock. */
  method InitialCommit(r: Repository, now: int) returns (out: Outcome)
    requires r.Valid() && r.commits == map[] && r.stageAdd == map[] && r.stageRm == map[]
    modifies r`blobs, r`stageAdd, r`stageRm, r`commits, r`branches, r`depth
    ensures r.head == old(r.head) && r.wd == old(r.wd)
    ensures r.Valid() && out == Done
    ensures r.commits == map[r.commitId(InitialData) := InitialData]
    ensures r.branches == old(r.branches)[r.head := r.commitId(InitialData)]
  {
    var c := new Commit(None, "initial commit", "master", now, r);
    c.date := 0;
    assert c.Data() == InitialData;
    out := c.Record(r, true);
  }

  /** minValue(m): the smallest value of the map, Integer.MAX_VALUE when
      there is none. */
  method MinValue(m: map<string, int>) returns (min: int)
    ensures min <= MaxInt
    ensures forall k :: k in m ==> min <= m[k]
    ensures min == MaxInt || exists k :: k in m && m[k] == min
    ensures m == map[] ==> min == MaxInt
  {
    min := MaxInt;
    var todo := m.Keys;
    while todo != {}
      invariant todo <= m.Keys
      invariant min <= MaxInt
      invariant forall k :: k in m.Keys - todo ==> min <= m[k]
      invariant min == MaxInt || exists k :: k in m && m[k] == min
      decreases todo
    {
      var k :| k in todo;
      if m[k] < min {
        min := m[k];
      }
      todo := todo - {k};
    }
  }

  /** getFromValue(m, n): the commit getCommitByID finds for the first key
      (in the map's own order) whose value is `n`; null when no key has that
      value. */
  method GetFromValue(m: map<string, int>, n: int, r: Repository, listing: seq<CommitData>)
    returns (c: Option<CommitData>)
    requires r.Valid() && IsListing(listing, r.commits)
    ensures (forall k :: k in m ==> m[k] != n) ==> c == None
    ensures (exists k :: k in m && m[k] == n) ==>
              exists k :: k in m && m[k] == n && c == CommitByID(r, listing, k)
  {
    var todo := m.Keys;
    while todo != {}
      invariant todo <= m.Keys
      invariant forall k :: k in m.Keys - todo ==> m[k] != n
      decreases todo
    {
      var k :| k in todo;
      if m[k] == n {
        c := GetCommitByID(r, listing, k);
        return;
      }
      todo := todo - {k};
    }
    c := None;
  }

  /** `s` lists the primary-parent chain of its first element. */
  ghost predicate IsChain(commits: map<string, CommitData>, s: seq<string>)
  {
    && |s| >= 1
    && (forall i :: 0 <= i < |s| ==> s[i] in commits)
    && (forall i :: 0 <= i < |s| ==> (commits[s[i]].parent.Some? <==> i + 1 < |s|))
    && (forall i :: 0 <= i < |s| - 1 ==> commits[s[i]].parent.value == s[i + 1])
  }

  ghost predicate MergeParentsStored(commits: map<string, CommitData>)
  {
    forall id :: id in commits && commits[id].mergeParent.Some? ==> commits[id].mergeParent.value in commits
  }

  lemma ChainIsChain(commits: map<string, CommitData>, depth: map<string, nat>, id: string)
    requires Linked(commits, depth) && id in commits
    ensures IsChain(commits, Chain(commits, depth, id))
    ensures MergeParentsStored(commits)
  {
    var s := Chain(commits, depth, id);
    forall i | 0 <= i < |s|
      ensures (commits[s[i]].parent.Some? <==> i + 1 < |s|)
      ensures i + 1 < |s| ==> commits[s[i]].parent.value == s[i + 1]
    {
      ChainStep(commits, depth, id, i);
    }
  }

  /** One side of the search after `distance` steps along `chain`: `seen`
      is the part of the chain walked so far, every id of it is in `path`,
      and `current` is the next id, or None past the root. */
  ghost predicate Walked(commits: map<string, CommitData>, chain: seq<string>, distance: nat,
                         seen: seq<string>, current: Option<string>, path: map<string, int>)
  {
    && |seen| == (if distance < |chain| then distance else |chain|)
    && (forall i :: 0 <= i < |seen| ==> seen[i] == chain[i])
    && current == (if distance < |chain| then Some(chain[distance]) else None)
    && (forall k :: k in path ==> k in commits)
    && (forall x :: x in seen ==> x in path)
  }

  /** The current branch's half of one step of the search: record the
      commit, and its merge parent one step further, in the main path; the
      merge parent and the commit are candidates when the other path holds
      them; then move to the primary parent. */
  method MainStep(commits: map<string, CommitData>, ghost cm: seq<string>, distance: nat,
                  current: Option<string>, ghost seen: seq<string>, ghost seenOther: seq<string>,
                  mainPath: map<string, int>, otherPath: map<string, int>, candidates: map<string, int>)
    returns (current': Option<string>, ghost seen': seq<string>, mainPath': map<string, int>,
             candidates': map<string, int>, found: bool)
    requires IsChain(commits, cm) && MergeParentsStored(commits)
    requires Walked(commits, cm, distance, seen, current, mainPath)
    requires forall x :: x in seenOther ==> x in otherPath
    requires forall k :: k in candidates ==> k in otherPath && candidates[k] >= 0
    requires candidates == map[] ==> forall x :: x in seen ==> x !in seenOther
    ensures Walked(commits, cm, distance + 1, seen', current', mainPath')
    ensures forall k :: k in candidates' ==> k in otherPath && candidates'[k] >= 0
    ensures !found ==> candidates' == candidates
    ensures found ==> candidates' != map[]
    ensures candidates' == map[] ==> forall x :: x in seen' ==> x !in seenOther
    ensures current.None? ==> current' == None && mainPath' == mainPath && candidates' == candidates && !found
    ensures current.Some? ==>
              var id := current.value;
              var mp := commits[id].mergeParent;
              && current' == commits[id].parent
              && id in mainPath'
              && (mp.Some? ==> mp.value in mainPath' && mainPath'[mp.value] == distance + 1)
              && (found <==> id in otherPath || (mp.Some? && mp.value in otherPath))
              && (mp.Some? && mp.value in otherPath ==> mp.value in candidates')
              && (id in otherPath ==> id in candidates' && candidates'[id] == distance)
  {
    current', seen', mainPath', candidates', found := current, seen, mainPath, candidates, false;
    if current.Some? {
      var id := current.value;
      var c := commits[id];
      mainPath' := mainPath'[id := distance];
      if c.mergeParent.Some? {
        var mergeParent := c.mergeParent.value;
        mainPath' := mainPath'[mergeParent := distance + 1];
        if mergeParent in otherPath {
          candidates' := candidates'[mergeParent := distance + 1];
          found := true;
        }
      }
      if id in otherPath {
        candidates' := candidates'[id := distance];
        found := true;
      }
      current' := c.parent;
      seen' := seen + [id];
    }
  }

  /** The other branch's half of one step: as MainStep, but the merge parent
      is looked up in the other path it was just added to. */
  method OtherStep(commits: map<string, CommitData>, ghost co: seq<string>, distance: nat,
                   current: Option<string>, ghost seen: seq<string>, ghost seenMain: seq<string>,
                   mainPath: map<string, int>, otherPath: map<string, int>, candidates: map<string, int>)
    returns (current': Option<string>, ghost seen': seq<string>, otherPath': map<string, int>,
             candidates': map<string, int>, found: bool)
    requires IsChain(commits, co) && MergeParentsStored(commits)
    requires Walked(commits, co, distance, seen, current, otherPath)
    requires forall x :: x in seenMain ==> x in mainPath
    requires forall k :: k in candidates ==> k in otherPath && candidates[k] >= 0
    requires candidates == map[] ==> forall x :: x in seenMain ==> x !in seen
    requires candidates == map[] ==> forall x :: x in seen ==> commits[x].mergeParent.None?
    ensures Walked(commits, co, distance + 1, seen', current', otherPath')
    ensures forall k :: k in candidates' ==> k in otherPath' && candidates'[k] >= 0
    ensures !found ==> candidates' == candidates
    ensures found ==> candidates' != map[]
    ensures candidates' == map[] ==> forall x :: x in seenMain ==> x !in seen'
    ensures candidates' == map[] ==> forall x :: x in seen' ==> commits[x].mergeParent.None?
    ensures current.None? ==> current' == None && otherPath' == otherPath && candidates' == candidates && !found
    ensures current.Some? ==>
              var id := current.value;
              var mp := commits[id].mergeParent;
              && current' == commits[id].parent
              && id in otherPath'
              && (mp.Some? ==> mp.value in otherPath' && otherPath'[mp.value] == distance + 1)
              && (found <==> id in mainPath || mp.Some?)
              && (mp.Some? ==> mp.value in candidates')
              && (id in mainPath ==> id in candidates' && candidates'[id] == distance)
  {
    current', seen', otherPath', candidates', found := current, seen, otherPath, candidates, false;
    if current.Some? {
      var id := current.value;
      var c := commits[id];
      otherPath' := otherPath'[id := distance];
      if c.mergeParent.Some? {
        var mergeParent := c.mergeParent.value;
        otherPath' := otherPath'[mergeParent := distance + 1];
        if mergeParent in otherPath' {
          candidates' := candidates'[mergeParent := distance + 1];
          found := true;
          assert mergeParent in candidates';
        }
      }
      if id in mainPath {
        candidates' := candidates'[id := distance];
        found := true;
        assert id in candidates';
      }
      current' := c.parent;
      seen' := seen + [id];
    }
  }

  /** The while loop of latestCommonAncestor: the head of the current branch
      and the head of the other branch are walked back in lock step along
      their primary parents (`cm` and `co`), each step recording the commit
      (and a merge parent, one step further) in the side's path map. A
      commit is a candidate when the other side's path already holds it. On
      the other branch's side the merge-parent test looks in that side's own
      path, which was just given the merge parent, so any merge parent there
      becomes a candidate. The walk stops at the first step that records a
      candidate, or when both chains are exhausted. A commit's id() is the
      key it is stored under. */
  method Search(commits: map<string, CommitData>, mainHead: string, otherHead: string,
                ghost cm: seq<string>, ghost co: seq<string>)
    returns (candidates: map<string, int>)
    requires IsChain(commits, cm) && IsChain(commits, co) && MergeParentsStored(commits)
    requires cm[0] == mainHead && co[0] == otherHead
    ensures forall k :: k in candidates ==> k in commits && candidates[k] >= 0
    ensures candidates == map[] ==>
              && (forall x :: x in cm ==> x !in co)
              && (forall x :: x in co ==> commits[x].mergeParent.None?)
  {
    ghost var longest := if |cm| < |co| then |co| else |cm|;
    // The ids each side has visited so far.
    ghost var seenMain: seq<string> := [];
    ghost var seenOther: seq<string> := [];
    candidates := map[];
    var mainPath: map<string, int> := map[];
    var otherPath: map<string, int> := map[];
    var currentMain: Option<string> := Some(mainHead);
    var currentOther: Option<string> := Some(otherHead);
    var distance: nat := 0;
    var finished := false;
    while !finished
      invariant !finished ==> distance < longest
      invariant Walked(commits, cm, distance, seenMain, currentMain, mainPath)
      invariant Walked(commits, co, distance, seenOther, currentOther, otherPath)
      invariant forall k :: k in candidates ==> k in otherPath && candidates[k] >= 0
      invariant !finished ==> candidates == map[]
      invariant finished ==> candidates != map[] || (distance >= |cm| && distance >= |co|)
      invariant candidates == map[] ==> forall x :: x in seenMain ==> x !in seenOther
      invariant candidates == map[] ==> forall x :: x in seenOther ==> commits[x].mergeParent.None?
      decreases longest - distance + (if finished then 0 else 1)
    {
      var foundMain, foundOther;
      currentMain, seenMain, mainPath, candidates, foundMain :=
        MainStep(commits, cm, distance, currentMain, seenMain, seenOther, mainPath, otherPath, candidates);
      currentOther, seenOther, otherPath, candidates, foundOther :=
        OtherStep(commits, co, distance, currentOther, seenOther, seenMain, mainPath, otherPath, candidates);
      finished := foundMain || foundOther || (currentMain.None? && currentOther.None?);
      distance := distance + 1;
    }
    if candidates == map[] {
      assert forall i :: 0 <= i < |cm| ==> cm[i] in seenMain;
      assert forall i :: 0 <= i < |co| ==> co[i] in seenOther;
    }
  }

  /** latestCommonAncestor's search from getHead() and getHead(otherBranch). */
  method SearchCandidates(r: Repository, otherBranch: string) returns (candidates: map<string, int>)
    requires r.Ready() && otherBranch in r.branches
    ensures forall k :: k in candidates ==> k in r.commits && candidates[k] >= 0
    ensures candidates == map[] ==>
              var cm := Chain(r.commits, r.depth, r.HeadSha1(r.head));
              var co := Chain(r.commits, r.depth, r.HeadSha1(otherBranch));
              && (forall x :: x in cm ==> x !in co)
              && (forall x :: x in co ==> r.commits[x].mergeParent.None?)
  {
    ChainIsChain(r.commits, r.depth, r.HeadSha1(r.head));
    ChainIsChain(r.commits, r.depth, r.HeadSha1(otherBranch));
    candidates := Search(r.commits, r.HeadSha1(r.head), r.HeadSha1(otherBranch), Chain(r.commits, r.depth, r.HeadSha1(r.head)),
                         Chain(r.commits, r.depth, r.HeadSha1(otherBranch)));
  }

  /** What latestCommonAncestor decided: no common ancestor, the given
      branch's head is the ancestor, the current branch was fast-forwarded
      by a checkout of the given branch (with that checkout's outcome), or
      the merge goes on from split point `point`. */
  datatype Split = NoAncestor | GivenIsAncestor | FastForward(checkout: Outcome) | SplitAt(point: CommitData)

  /** `lca` is the id getFromValue(candidates, minValue(candidates)) finds:
      a candidate of least distance, and none exactly when no candidate's
      distance is at most Integer.MAX_VALUE. */
  ghost predicate LeastCandidate(candidates: map<string, int>, lca: Option<string>)
  {
    && (lca.None? <==> forall k :: k in candidates ==> candidates[k] > MaxInt)
    && (lca.Some? ==> lca.value in candidates && forall k :: k in candidates ==> candidates[lca.value] <= candidates[k])
  }

  /** The decision latestCommonAncestor takes for ancestor `lca`, given the
      ids of the two heads. */
  ghost predicate SplitFor(split: Split, lca: Option<string>, mainHead: string, otherHead: string,
                           commits: map<string, CommitData>)
  {
    && (lca.None? ==> split == NoAncestor)
    && (lca.Some? && lca.value == otherHead ==> split == GivenIsAncestor)
    && (lca.Some? && lca.value != otherHead && lca.value == mainHead ==> split.FastForward?)
    && (lca.Some? && lca.value != otherHead && lca.value != mainHead ==>
          lca.value in commits && split == SplitAt(commits[lca.value]))
  }

  /** getFromValue(candidates, minValue(candidates)): the stored commit of
      a candidate of least distance. */
  method ChooseAncestor(r: Repository, candidates: map<string, int>, listing: seq<CommitData>)
    returns (found: Option<CommitData>, ghost lca: Option<string>)
    requires r.Valid() && IsListing(listing, r.commits)
    requires forall k :: k in candidates ==> k in r.commits
    ensures LeastCandidate(candidates, lca)
    ensures lca.None? ==> found == None
    ensures lca.Some? ==> lca.value in r.commits && found == Some(r.commits[lca.value])
                          && r.commitId(found.value) == lca.value
  {
    var min := MinValue(candidates);
    found := GetFromValue(candidates, min, r, listing);
    if found.None? {
      lca := None;
      return;
    }
    ghost var k :| k in candidates && candidates[k] == min && found == CommitByID(r, listing, k);
    assert found == Some(r.commits[k]);
    lca := Some(k);
  }

  /** new CheckoutCommand({"checkout", otherBranch}).execute(). */
  method FastForwardTo(r: Repository, otherBranch: string, listing: seq<CommitData>) returns (out: Outcome)
    requires r.Ready() && otherBranch in r.branches && IsListing(listing, r.commits)
    modifies r`wd, r`head, r`stageAdd, r`stageRm
    ensures r.commits == old(r.commits) && r.blobs == old(r.blobs) && r.branches == old(r.branches)
            && r.depth == old(r.depth)
    ensures r.Valid() && !out.Crashed?
    ensures out.Failed? ==>
              r.wd == old(r.wd) && r.head == old(r.head) && r.stageAdd == old(r.stageAdd) && r.stageRm == old(r.stageRm)
    ensures out == Done ==>
              r.Ready() && r.head == otherBranch && r.wd == CheckoutCommand.CheckedOut(r.HeadCommit(), r.blobs)
              && r.stageAdd == map[] && r.stageRm == map[]
  {
    out := CheckoutCommand.Execute(r, ["checkout", otherBranch], listing);
  }

  /** latestCommonAncestor(otherBranch): the search, then the candidate of
      least distance. When it is the given branch's head nothing happens;
      when it is the current head the given branch is checked out. */
  method LatestCommonAncestor(r: Repository, otherBranch: string, listing: seq<CommitData>)
    returns (split: Split, candidates: map<string, int>, ghost lca: Option<string>)
    requires r.Ready() && otherBranch in r.branches && IsListing(listing, r.commits)
    modifies r`wd, r`head, r`stageAdd, r`stageRm
    ensures r.depth == old(r.depth)
    ensures r.Valid()
    ensures r.commits == old(r.commits) && r.branches == old(r.branches) && r.blobs == old(r.blobs)
    ensures forall k :: k in candidates ==> k in r.commits && candidates[k] >= 0
    ensures candidates == map[] ==>
              var cm := old(Chain(r.commits, r.depth, r.HeadSha1(r.head)));
              var co := Chain(r.commits, r.depth, r.HeadSha1(otherBranch));
              && (forall x :: x in cm ==> x !in co)
              && (forall x :: x in co ==> r.commits[x].mergeParent.None?)
    ensures LeastCandidate(candidates, lca)
    ensures SplitFor(split, lca, old(r.HeadSha1(r.head)), r.HeadSha1(otherBranch), r.commits)
    ensures split.SplitAt? ==> r.Stored(split.point)
    ensures !split.FastForward? ==>
              r.wd == old(r.wd) && r.head == old(r.head) && r.stageAdd == old(r.stageAdd) && r.stageRm == old(r.stageRm)
    ensures split.FastForward? ==>
              && !split.checkout.Crashed?
              && (split.checkout.Failed? ==>
                    r.wd == old(r.wd) && r.head == old(r.head)
                    && r.stageAdd == old(r.stageAdd) && r.stageRm == old(r.stageRm))
              && (split.checkout == Done ==>
                    r.Ready() && r.head == otherBranch && r.wd == CheckoutCommand.CheckedOut(r.HeadCommit(), r.blobs)
                    && r.stageAdd == map[] && r.stageRm == map[])
  {
    candidates := SearchCandidates(r, otherBranch);
    var found;
    found, lca := ChooseAncestor(r, candidates, listing);
    if found.None? {
      return NoAncestor, candidates, lca;
    }
    var id := r.commitId(found.value);
    if id == r.commitId(r.Head(otherBranch)) {
      split := GivenIsAncestor;
    } else if id == r.commitId(r.HeadCommit()) {
      var out := FastForwardTo(r, otherBranch, listing);
      split := FastForward(out);
    } else {
      split := SplitAt(found.value);
    }
  }
}
