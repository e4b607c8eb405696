/** Stage.java: the staging area. The add and rm folders map a file name to
    the text saved for it; the lists Stage keeps are the folder listings, so
    the model works on the folders (Repository.stageAdd, Repository.stageRm)
    directly. */
module Stage {
  import opened Types
  import opened Utils

  /** The working file matches the version HEAD tracks: addToStage then only
      drops a pending addition. */
  predicate SameAsHead(r: Repository, f: Name)
    reads r
    requires r.Ready()
  {
    f in r.HeadCommit().contents
    && ContentsMatch(if f in r.wd then Some(r.wd[f]) else None, Version(r.HeadCommit().contents, r.blobs, f))
  }

  /** remove(f, soft): a name staged for addition is only unstaged. Otherwise
      a hard remove saves the working file's text in the rm folder (an rm
      file that already exists keeps its text when the working file is gone;
      a new one is empty) and deletes the working file; a soft remove does
      nothing. */
  method Remove(r: Repository, f: Name, soft: bool)
    requires r.Valid()
    modifies r`stageAdd, r`stageRm, r`wd
    ensures r.commits == old(r.commits) && r.blobs == old(r.blobs) && r.branches == old(r.branches)
            && r.depth == old(r.depth) && r.head == old(r.head)
    ensures r.Valid()
    ensures f in old(r.stageAdd) ==>
              r.stageAdd == old(r.stageAdd) - {f} && r.stageRm == old(r.stageRm) && r.wd == old(r.wd)
    ensures f !in old(r.stageAdd) && soft ==>
              r.stageAdd == old(r.stageAdd) && r.stageRm == old(r.stageRm) && r.wd == old(r.wd)
    ensures f !in old(r.stageAdd) && !soft ==>
              && r.stageAdd == old(r.stageAdd)
              && r.stageRm == old(r.stageRm)[f := if f in old(r.wd) then old(r.wd)[f]
                                                  else if f in old(r.stageRm) then old(r.stageRm)[f]
                                                  else ""]
              && r.wd == old(r.wd) - {f}
  {
    if f in r.stageAdd {
      r.stageAdd := r.stageAdd - {f};
      return;
    }
    if !soft {
      var saved := if f in r.stageRm then r.stageRm[f] else "";
      if f in r.wd {
        saved := r.wd[f];
        r.wd := r.wd - {f};
      }
      r.stageRm := r.stageRm[f := saved];
    }
  }

  /** addToStage(f): a pending removal of `f` is always cancelled; when the
      working file matches HEAD's version a pending addition is dropped,
      otherwise the add folder records the working file's text, replacing an
      earlier entry. The caller (AddCommand) has checked that the file
      exists. */
  method AddToStage(r: Repository, f: Name)
    requires r.Ready() && f in r.wd
    modifies r`stageAdd, r`stageRm, r`wd
    ensures r.commits == old(r.commits) && r.blobs == old(r.blobs) && r.branches == old(r.branches)
            && r.depth == old(r.depth) && r.head == old(r.head)
    ensures r.Ready() && r.wd == old(r.wd)
    ensures r.stageRm == old(r.stageRm) - {f}
    ensures old(SameAsHead(r, f)) ==> r.stageAdd == old(r.stageAdd) - {f}
    ensures !old(SameAsHead(r, f)) ==> r.stageAdd == old(r.stageAdd)[f := r.wd[f]]
  {
    ghost var same := SameAsHead(r, f);
    if f in r.stageRm {
      r.stageRm := r.stageRm - {f};
    }
    assert r.Ready();
    assert SameAsHead(r, f) == same;
    StageIfChanged(r, f);
  }

  /** The rest of addToStage, once the pending removal is cancelled. */
  method StageIfChanged(r: Repository, f: Name)
    requires r.Ready() && f in r.wd && f !in r.stageRm
    modifies r`stageAdd, r`stageRm, r`wd
    ensures r.commits == old(r.commits) && r.blobs == old(r.blobs) && r.branches == old(r.branches)
            && r.depth == old(r.depth) && r.head == old(r.head) && r.stageRm == old(r.stageRm)
    ensures r.Ready() && r.wd == old(r.wd)
    ensures old(SameAsHead(r, f)) ==> r.stageAdd == old(r.stageAdd) - {f}
    ensures !old(SameAsHead(r, f)) ==> r.stageAdd == old(r.stageAdd)[f := r.wd[f]]
  {
    var head := r.HeadCommit();
    if f in head.contents {
      if ContentsMatch(Some(r.wd[f]), Version(head.contents, r.blobs, f)) {
        Remove(r, f, true);
        return;
      }
    }
    r.stageAdd := r.stageAdd[f := r.wd[f]];
  }

  /** RmCommand's hard remove: remove(f, false). */
  method RemoveHard(r: Repository, f: Name)
    requires r.Valid()
    modifies r`stageAdd, r`stageRm, r`wd
    ensures r.commits == old(r.commits) && r.blobs == old(r.blobs) && r.branches == old(r.branches)
            && r.depth == old(r.depth) && r.head == old(r.head)
    ensures r.Valid()
    ensures f in old(r.stageAdd) ==>
              r.stageAdd == old(r.stageAdd) - {f} && r.stageRm == old(r.stageRm) && r.wd == old(r.wd)
    ensures f !in old(r.stageAdd) ==>
              && r.stageAdd == old(r.stageAdd)
              && f in r.stageRm && f !in r.wd
              && (f in old(r.wd) ==> r.stageRm[f] == old(r.wd)[f])
              && r.stageRm - {f} == old(r.stageRm) - {f}
              && r.wd == old(r.wd) - {f}
  {
    Remove(r, f, false);
  }

  /** trackedOrContains(f): `f` is staged for addition or tracked by HEAD. */
  predicate TrackedOrContains(r: Repository, f: Name)
    reads r
    requires r.Ready()
  {
    f in r.stageAdd || f in r.HeadCommit().contents
  }

  /** A file that is neither untracked nor the repository folder is exactly
      one that trackedOrContains accepts and that is not staged for
      removal. */
  lemma TrackedOrContainsAndUntracked(r: Repository, f: Name)
    requires r.Ready() && f != GitletDir
    ensures !r.Untracked(f) <==> TrackedOrContains(r, f) && f !in r.stageRm
  {
    UntrackedMeaning(r, f);
  }

  /** clear(): deletes every file of the add folder, then every file of the
      rm folder. */
  method Clear(r: Repository)
    requires r.Valid()
    modifies r`stageAdd, r`stageRm
    ensures r.commits == old(r.commits) && r.blobs == old(r.blobs) && r.branches == old(r.branches)
            && r.depth == old(r.depth) && r.head == old(r.head) && r.wd == old(r.wd)
    ensures r.Valid()
    ensures r.stageAdd == map[] && r.stageRm == map[]
  {
    while r.stageAdd != map[]
      invariant r.Valid()
      invariant r.stageRm == old(r.stageRm)
      decreases |r.stageAdd|
    {
      var f :| f in r.stageAdd;
      r.stageAdd := r.stageAdd - {f};
    }
    while r.stageRm != map[]
      invariant r.Valid()
      invariant r.stageAdd == map[]
      decreases |r.stageRm|
    {
      var f :| f in r.stageRm;
      r.stageRm := r.stageRm - {f};
    }
  }
}
