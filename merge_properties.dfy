/** What resolveFilesAtSplitPoint does to each name, read off the merged
    snapshot: the outcome for a name only the given branch tracks, for each
    action of the second loop, and for a name outside the split point. */
module MergeProperties {
  import opened Types
  import opened Utils
  import opened Commit

  /** The snapshot after the second loop holds, for each name, the entry
      SplitEntry describes. */
  lemma SplitDoneEntry(f: Name, cur: map<Name, Sha1>, split: map<Name, Sha1>, other: map<Name, Sha1>,
                       blobs: map<string, string>, wd: map<Name, string>, sha1: string -> Sha1)
    ensures var c1 := GivenAdded(cur, split, other);
            var e := SplitEntry(f, split.Keys, c1, Plan(c1, split, other, blobs, wd), other, blobs, sha1);
            var c2 := SplitDone(cur, split, other, blobs, wd, sha1);
            (f in c2 <==> e.Some?) && (f in c2 ==> c2[f] == e.value)
  {
  }

  /** The merged snapshot holds the conflict blob for a working file the
      third loop finds in conflict, and the second loop's entry otherwise. */
  lemma MergedEntry(f: Name, cur: map<Name, Sha1>, split: map<Name, Sha1>, other: map<Name, Sha1>,
                    blobs: map<string, string>, wd: map<Name, string>, sha1: string -> Sha1)
    ensures var c2 := SplitDone(cur, split, other, blobs, wd, sha1);
            var m := Merged(cur, split, other, blobs, wd, sha1);
            if CwdConflict(f, c2, split, other, blobs, wd)
            then f in m && m[f] == sha1(ConflictText(c2, other, blobs, f))
            else (f in m <==> f in c2) && (f in c2 ==> m[f] == c2[f])
  {
    var c2 := SplitDone(cur, split, other, blobs, wd, sha1);
    if CwdConflict(f, c2, split, other, blobs, wd) {
      assert f in CwdConflicts(wd.Keys, c2, split, other, blobs, wd);
    }
  }

  /** A name only the given branch tracks takes the given branch's blob,
      and is neither an exception nor a deletion. A blob id missing from
      the store never matches itself, so such a name, when it is also a
      working file, is put in conflict against nothing on both sides. */
  lemma GivenOnlyAdopted(f: Name, cur: map<Name, Sha1>, split: map<Name, Sha1>, other: map<Name, Sha1>,
                         blobs: map<string, string>, wd: map<Name, string>, sha1: string -> Sha1)
    requires OnlyInGivenBranch(f, cur, split, other)
    ensures var m := Merged(cur, split, other, blobs, wd, sha1);
            && f in m
            && (other[f] in blobs || f !in wd ==> m[f] == other[f])
            && (other[f] !in blobs && f in wd ==> m[f] == sha1("<<<<<<< HEAD\n=======\n>>>>>>>\n"))
    ensures f !in MergeExceptions(cur, split, other, blobs, wd)
    ensures f !in MergeDeletions(cur, split, other, blobs, wd)
  {
    var c1 := GivenAdded(cur, split, other);
    SplitDoneEntry(f, cur, split, other, blobs, wd, sha1);
    MergedEntry(f, cur, split, other, blobs, wd, sha1);
    var c2 := SplitDone(cur, split, other, blobs, wd, sha1);
    assert f in c1 && c1[f] == other[f];
    assert Version(c2, blobs, f) == Version(other, blobs, f);
    if other[f] in blobs {
      assert !InConflict(f, c2, split, other, blobs);
    } else if f in wd {
      assert CwdConflict(f, c2, split, other, blobs, wd);
      assert ConflictText(c2, other, blobs, f) == "<<<<<<< HEAD\n=======\n>>>>>>>\n";
    }
  }

  /** A split point name gets the action the second loop's tests pick on
      the current snapshot, in Java's order: adopted from the given
      branch, kept in the working directory as an exception, deleted and
      recorded as deleted, replaced by its conflict blob, or left as it
      was. The third loop does not touch it. */
  lemma SplitNameResolved(f: Name, cur: map<Name, Sha1>, split: map<Name, Sha1>, other: map<Name, Sha1>,
                          blobs: map<string, string>, wd: map<Name, string>, sha1: string -> Sha1)
    requires f in split
    ensures var m := Merged(cur, split, other, blobs, wd, sha1);
            var a := AtSplit(f, cur, split, other, blobs, wd);
            && (a == Adopt ==> f in m && m[f] == other[f])
            && (a == Conflict ==> f in m && m[f] == sha1(ConflictText(cur, other, blobs, f)))
            && (a == Delete ==> f !in m)
            && (a == Except || a == Keep ==> (f in m <==> f in cur) && (f in cur ==> m[f] == cur[f]))
            && (f in MergeExceptions(cur, split, other, blobs, wd) <==> a == Except)
            && (f in MergeDeletions(cur, split, other, blobs, wd) <==> a == Delete)
            && (a == Conflict ==> MergeConflicts(cur, split, other, blobs, wd, sha1))
  {
    var c1 := GivenAdded(cur, split, other);
    var plan := Plan(c1, split, other, blobs, wd);
    assert (f in c1 <==> f in cur) && (f in cur ==> c1[f] == cur[f]);
    SameEntry(f, c1, cur, split, other, blobs, wd);
    SplitDoneEntry(f, cur, split, other, blobs, wd, sha1);
    MergedEntry(f, cur, split, other, blobs, wd, sha1);
    assert plan[f] == AtSplit(f, cur, split, other, blobs, wd);
    if plan[f] == Conflict {
      assert f in Handled(split.Keys, plan, Conflict);
    }
  }

  /** A name outside the split point that the given branch does not add on
      its own keeps the current entry, unless it is a working file in
      conflict, which alone takes its conflict blob: a file both branches
      added with different texts stays as it is here when it is not in the
      working directory. */
  lemma OutsideSplitResolved(f: Name, cur: map<Name, Sha1>, split: map<Name, Sha1>, other: map<Name, Sha1>,
                             blobs: map<string, string>, wd: map<Name, string>, sha1: string -> Sha1)
    requires f !in split && !OnlyInGivenBranch(f, cur, split, other)
    ensures var m := Merged(cur, split, other, blobs, wd, sha1);
            if f in wd && InConflict(f, cur, split, other, blobs)
            then f in m && m[f] == sha1(ConflictText(cur, other, blobs, f))
                 && MergeConflicts(cur, split, other, blobs, wd, sha1)
            else (f in m <==> f in cur) && (f in cur ==> m[f] == cur[f])
    ensures f !in MergeExceptions(cur, split, other, blobs, wd)
    ensures f !in MergeDeletions(cur, split, other, blobs, wd)
  {
    var c1 := GivenAdded(cur, split, other);
    var c2 := SplitDone(cur, split, other, blobs, wd, sha1);
    assert (f in c1 <==> f in cur) && (f in cur ==> c1[f] == cur[f]);
    SplitDoneEntry(f, cur, split, other, blobs, wd, sha1);
    MergedEntry(f, cur, split, other, blobs, wd, sha1);
    SameEntry(f, c2, cur, split, other, blobs, wd);
    if f in wd && InConflict(f, cur, split, other, blobs) {
      assert f in CwdConflicts(wd.Keys, c2, split, other, blobs, wd);
    }
  }

  /** A commit() with nothing staged keeps the parent's snapshot. */
  lemma EmptyStageSnapshot(parent: map<Name, Sha1>, sha1: string -> Sha1)
    ensures Snapshot(parent, map[], {}, sha1) == parent
  {
    assert Snapshot(parent, map[], {}, sha1).Keys == parent.Keys;
  }

  /** mergeConflict reads a side that is not tracked, or whose blob file is
      missing, as the empty string: such a side gives the same conflict text
      as a side holding an empty file, and with both sides missing only the
      markers remain. */
  lemma ConflictTextMissingSide(f: Name, cur: map<Name, Sha1>, other: map<Name, Sha1>,
                                blobs: map<string, string>, empty: Sha1)
    requires empty in blobs && blobs[empty] == ""
    ensures Version(cur, blobs, f).None? ==>
              ConflictText(cur, other, blobs, f) == ConflictText(cur[f := empty], other, blobs, f)
    ensures Version(other, blobs, f).None? ==>
              ConflictText(cur, other, blobs, f) == ConflictText(cur, other[f := empty], blobs, f)
    ensures Version(cur, blobs, f).None? && Version(other, blobs, f).None? ==>
              ConflictText(cur, other, blobs, f) == "<<<<<<< HEAD\n=======\n>>>>>>>\n"
  {
  }
}
