/** ResetCommand.java: the checks made when the command is built, and
    reset(allowExceptions), which checks out every file of a commit, deletes
    the other working files, moves the current branch to the commit and
    clears the stage. */
module ResetCommand {
  import opened Types
  import opened Utils
  import CheckoutCommand
  import Stage

  /** The working directory reset(allowExceptions) leaves: the commit's files
      checked out, plus, when exceptions are allowed, the untracked working
      files the commit lists as exceptions, untouched. */
  function AfterReset(c: CommitData, blobs: map<string, string>, wd: map<Name, string>, allowExceptions: bool)
    : (w: map<Name, string>)
    requires BlobsPresent(c, blobs)
    ensures forall f :: f in c.contents ==> f in w && w[f] == blobs[c.contents[f]]
    ensures forall f :: f in w && f !in c.contents ==>
              allowExceptions && f in c.exceptions && f in wd && w[f] == wd[f]
    ensures forall f :: f in wd && allowExceptions && f in c.exceptions ==> f in w
  {
    (map f | f in wd && f !in c.contents && allowExceptions && f in c.exceptions :: wd[f])
      + CheckoutCommand.CheckedOut(c, blobs)
  }

  /** Without exceptions a reset leaves exactly the commit's checkout. */
  lemma NoExceptionsIsCheckout(c: CommitData, blobs: map<string, string>, wd: map<Name, string>)
    requires BlobsPresent(c, blobs)
    ensures AfterReset(c, blobs, wd, false) == CheckoutCommand.CheckedOut(c, blobs)
  {
    assert forall f :: f in AfterReset(c, blobs, wd, false) <==> f in CheckoutCommand.CheckedOut(c, blobs);
  }

  /** Writing the commit's files and then deleting the ones outside it and
      its exceptions is AfterReset. */
  lemma WriteThenDelete(c: CommitData, blobs: map<string, string>, wd: map<Name, string>, allowExceptions: bool)
    requires BlobsPresent(c, blobs)
    ensures var written := wd + CheckoutCommand.CheckedOut(c, blobs);
            (map f | f in written && (f in c.contents || (allowExceptions && f in c.exceptions)) :: written[f])
            == AfterReset(c, blobs, wd, allowExceptions)
  {
    var written := wd + CheckoutCommand.CheckedOut(c, blobs);
    var kept := map f | f in written && (f in c.contents || (allowExceptions && f in c.exceptions)) :: written[f];
    assert forall f :: f in kept <==> f in AfterReset(c, blobs, wd, allowExceptions);
  }

  /** Some untracked working file is not one the commit removed in a
      merge. */
  predicate UntrackedInTheWay(r: Repository, c: CommitData)
    reads r
    requires r.Ready()
  {
    exists f :: f in r.wd && r.Untracked(f) && f !in c.delFromMerge
  }

  /** The constructor's checks, run in order and each printing its message:
      an argument count other than two (but reading args[1] of a shorter
      array throws), no commit with the id, and an untracked working file
      that the commit does not delete. The untracked loop reads the head
      commit for every working file but the repository folder, so it throws
      when HEAD names a branch whose file is gone; it also calls a method of
      the commit, so it throws when the commit is missing and some file is
      untracked. `commit` is the commit the command resets to. */
  method Check(r: Repository, args: seq<string>, listing: seq<CommitData>)
    returns (out: Outcome, commit: Option<CommitData>)
    requires r.Valid() && IsListing(listing, r.commits)
    ensures |args| < 2 ==> out == Crashed(IndexOutOfBounds)
    ensures |args| >= 2 ==> commit == CommitByID(r, listing, args[1])
    ensures |args| >= 2 && r.head !in r.branches && r.AnyWorkingFile() ==> out == Crashed(MissingFile)
    ensures |args| >= 2 && r.Ready() && commit.None? && r.AnyUntracked() ==> out == Crashed(NullPointer)
    ensures |args| >= 2 && !(r.head !in r.branches && r.AnyWorkingFile())
            && !(r.Ready() && commit.None? && r.AnyUntracked()) ==>
              var messages := (if |args| != 2 then [Error.IncorrectOperands] else [])
                              + (if commit.None? then [NoSuchCommit] else [])
                              + (if r.Ready() && commit.Some? && UntrackedInTheWay(r, commit.value)
                                 then [Error.UntrackedInTheWay] else []);
              out == if messages == [] then Done else Failed(messages)
    ensures out == Done <==>
              |args| == 2 && commit.Some?
              && (if r.Ready() then !UntrackedInTheWay(r, commit.value) else !r.AnyWorkingFile())
    ensures commit.Some? ==> r.Stored(commit.value)
  {
    var incorrect: seq<Error> := if |args| != 2 then [Error.IncorrectOperands] else [];
    if |args| < 2 {
      return Crashed(IndexOutOfBounds), None;
    }
    commit := GetCommitByID(r, listing, args[1]);
    var crash, found := ScanUntracked(r, commit);
    if crash.Some? {
      return Crashed(crash.value), commit;
    }
    var messages := incorrect + (if commit.None? then [NoSuchCommit] else [])
                    + (if found then [Error.UntrackedInTheWay] else []);
    out := if messages == [] then Done else Failed(messages);
  }

  /** The constructor's loop over the working files: any file but the
      repository folder throws when the head commit cannot be read, the
      first untracked one throws when there is no commit, and the first
      untracked one the commit does not delete stops the loop with its
      message. */
  method ScanUntracked(r: Repository, commit: Option<CommitData>) returns (crash: Option<Crash>, found: bool)
    requires r.Valid()
    ensures crash == Some(MissingFile) <==> r.head !in r.branches && r.AnyWorkingFile()
    ensures crash == Some(NullPointer) <==> r.Ready() && commit.None? && r.AnyUntracked()
    ensures crash.Some? ==> crash == Some(MissingFile) || crash == Some(NullPointer)
    ensures found <==> r.Ready() && commit.Some? && UntrackedInTheWay(r, commit.value)
  {
    var todo := r.wd.Keys;
    while todo != {}
      invariant todo <= r.wd.Keys
      invariant r.head !in r.branches ==> forall f :: f in r.wd && f !in todo ==> f == GitletDir
      invariant r.Ready() ==> forall f :: f in r.wd && f !in todo ==>
                  !r.Untracked(f) || (commit.Some? && f in commit.value.delFromMerge)
      decreases todo
    {
      var f :| f in todo;
      if f != GitletDir {
        if r.head !in r.branches {
          return Some(MissingFile), false;
        }
        if r.Untracked(f) {
          if commit.None? {
            return Some(NullPointer), false;
          }
          if f !in commit.value.delFromMerge {
            return None, true;
          }
        }
      }
      todo := todo - {f};
    }
    return None, false;
  }

  /** The first loop of reset: one file checkout per tracked name. */
  method CheckoutTracked(r: Repository, c: CommitData)
    requires BlobsPresent(c, r.blobs)
    modifies r`wd
    ensures r.commits == old(r.commits) && r.blobs == old(r.blobs) && r.branches == old(r.branches)
            && r.depth == old(r.depth) && r.head == old(r.head) && r.stageAdd == old(r.stageAdd)
            && r.stageRm == old(r.stageRm)
    ensures r.wd == old(r.wd) + CheckoutCommand.CheckedOut(c, r.blobs)
  {
    var todo := c.contents.Keys;
    while todo != {}
      invariant todo <= c.contents.Keys
      invariant r.wd == old(r.wd) + map f | f in c.contents && f !in todo :: r.blobs[c.contents[f]]
      decreases todo
    {
      var f :| f in todo;
      var done := CheckoutCommand.CheckoutFileFromCommit(r, Some(c), f);
      todo := todo - {f};
    }
  }

  /** The second loop of reset: every working file the commit does not track
      is deleted, unless exceptions are allowed and the commit lists it. */
  method DeleteOthers(r: Repository, c: CommitData, allowExceptions: bool)
    modifies r`wd
    ensures r.commits == old(r.commits) && r.blobs == old(r.blobs) && r.branches == old(r.branches)
            && r.depth == old(r.depth) && r.head == old(r.head) && r.stageAdd == old(r.stageAdd)
            && r.stageRm == old(r.stageRm)
    ensures r.wd == map f | f in old(r.wd) && (f in c.contents || (allowExceptions && f in c.exceptions))
                      :: old(r.wd)[f]
  {
    var cwdFiles := r.wd.Keys;
    var todo := cwdFiles;
    while todo != {}
      invariant todo <= cwdFiles
      invariant r.wd == map f | f in old(r.wd)
                                && (f in todo || f in c.contents || (allowExceptions && f in c.exceptions))
                          :: old(r.wd)[f]
      decreases todo
    {
      var f :| f in todo;
      if f !in c.contents && !(allowExceptions && f in c.exceptions) {
        r.wd := r.wd - {f};
      }
      todo := todo - {f};
    }
  }

  /** reset(allowExceptions): the working directory becomes AfterReset, the
      branch HEAD names points at the commit, and the stage is empty. */
  method Reset(r: Repository, c: CommitData, allowExceptions: bool)
    requires r.Valid() && r.Stored(c)
    modifies r`wd, r`branches, r`stageAdd, r`stageRm
    ensures r.Ready()
    ensures r.commits == old(r.commits) && r.blobs == old(r.blobs) && r.head == old(r.head) && r.depth == old(r.depth)
    ensures r.branches == old(r.branches)[r.head := r.commitId(c)]
    ensures r.HeadCommit() == c
    ensures r.wd == AfterReset(c, r.blobs, old(r.wd), allowExceptions)
    ensures r.stageAdd == map[] && r.stageRm == map[]
  {
    assert BlobsPresent(r.commits[r.commitId(c)], r.blobs);
    WriteThenDelete(c, r.blobs, r.wd, allowExceptions);
    CheckoutTracked(r, c);
    DeleteOthers(r, c, allowExceptions);
    r.SetHead(c, r.head);
    Stage.Clear(r);
  }

  /** execute: reset(false) when every check passed, nothing otherwise. */
  method Execute(r: Repository, args: seq<string>, listing: seq<CommitData>) returns (out: Outcome)
    requires r.Valid() && IsListing(listing, r.commits)
    modifies r`wd, r`branches, r`stageAdd, r`stageRm
    ensures r.commits == old(r.commits) && r.blobs == old(r.blobs) && r.depth == old(r.depth)
            && r.head == old(r.head)
    ensures r.Valid()
    ensures out != Done ==>
              r.wd == old(r.wd) && r.branches == old(r.branches)
              && r.stageAdd == old(r.stageAdd) && r.stageRm == old(r.stageRm)
    ensures out == Done <==>
              |args| == 2 && old(CommitByID(r, listing, args[1])).Some?
              && old(if r.Ready() then !UntrackedInTheWay(r, CommitByID(r, listing, args[1]).value)
                     else !r.AnyWorkingFile())
    ensures out == Done ==>
              var c := old(CommitByID(r, listing, args[1])).value;
              && r.Ready() && r.HeadCommit() == c
              && r.branches == old(r.branches)[r.head := r.commitId(c)]
              && r.wd == AfterReset(c, r.blobs, old(r.wd), false)
              && r.stageAdd == map[] && r.stageRm == map[]
  {
    var commit;
    out, commit := Check(r, args, listing);
    if out == Done {
      Reset(r, commit.value, false);
    }
  }
}
