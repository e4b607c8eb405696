/** CheckoutCommand.java: restoring one file from a commit, or switching the
    working directory, HEAD and the stage over to another branch. */
module CheckoutCommand {
  import opened Types
  import opened Utils
  import Stage

  /** incorrectOperands: the argument shapes the constructor refuses. */
  predicate IncorrectOperands(args: seq<string>)
  {
    if |args| == 1 || |args| > 4 then true
    else if |args| == 3 && args[1] != "--" then true
    else if |args| == 4 && args[2] != "--" then true
    else false
  }

  /** The accepted shapes: no arguments (which execute rejects later),
      `checkout <branch>`, `checkout -- <file>`, `checkout <id> -- <file>`. */
  lemma AcceptedOperands(args: seq<string>)
    ensures !IncorrectOperands(args)
            <==> |args| == 0 || |args| == 2
                 || (|args| == 3 && args[1] == "--")
                 || (|args| == 4 && args[2] == "--")
  {
  }

  /** The working directory after restoring every file a commit tracks and
      deleting every other file. */
  function CheckedOut(c: CommitData, blobs: map<string, string>): (w: map<Name, string>)
    requires BlobsPresent(c, blobs)
    ensures w.Keys == c.contents.Keys
    ensures forall f :: f in w ==> w[f] == blobs[c.contents[f]]
  {
    map f | f in c.contents :: blobs[c.contents[f]]
  }

  /** checkoutFileFromCommit(c): with no commit, or a commit that does not
      track the file, only a message; otherwise the working file is created
      or overwritten with the commit's version. */
  method CheckoutFileFromCommit(r: Repository, c: Option<CommitData>, f: Name) returns (out: Outcome)
    requires c.Some? ==> BlobsPresent(c.value, r.blobs)
    modifies r`wd
    ensures r.commits == old(r.commits) && r.blobs == old(r.blobs) && r.branches == old(r.branches)
            && r.depth == old(r.depth) && r.head == old(r.head) && r.stageAdd == old(r.stageAdd)
            && r.stageRm == old(r.stageRm)
    ensures c.None? ==> out == Failed([NoSuchCommit]) && r.wd == old(r.wd)
    ensures c.Some? && f !in c.value.contents ==> out == Failed([FileNotInCommit]) && r.wd == old(r.wd)
    ensures c.Some? && f in c.value.contents ==>
              out == Done && r.wd == old(r.wd)[f := r.blobs[c.value.contents[f]]]
  {
    if c.None? {
      return Failed([NoSuchCommit]);
    }
    if f !in c.value.contents {
      return Failed([FileNotInCommit]);
    }
    r.wd := r.wd[f := r.blobs[c.value.contents[f]]];
    out := Done;
  }

  /** Some file of the branches folder, with its extension stripped, is
      `name`. */
  ghost predicate Listed(branches: map<string, string>, name: string)
  {
    exists b :: b in branches && BeforeDot(b + ".txt") == name
  }

  /** A branch whose name has no '.' is found, and a name with a '.' never
      is: its file's name is cut at the first '.'. */
  lemma ListedBranches(branches: map<string, string>, name: string)
    ensures name in branches && '.' !in name ==> Listed(branches, name)
    ensures '.' in name ==> !Listed(branches, name)
  {
    BranchFileBaseName(name);
    forall b | b in branches
      ensures BeforeDot(b + ".txt") != name || '.' !in name
    {
      BranchFileBaseName(b);
    }
  }

  /** The part of a dotted branch name before its first '.' passes the
      existence check, though it is not that branch's name. */
  lemma DottedBranchPrefixListed(branches: map<string, string>, b: string)
    requires b in branches && '.' in b
    ensures Listed(branches, BeforeDot(b + ".txt"))
    ensures BeforeDot(b + ".txt") != b
  {
    BranchFileBaseName(b);
  }

  /** The branch-existence loop of checkoutBranch over the branches
      folder. */
  method BranchListed(r: Repository, name: string) returns (found: bool)
    ensures found <==> Listed(r.branches, name)
  {
    found := false;
    var todo := r.branches.Keys;
    while todo != {}
      invariant todo <= r.branches.Keys
      invariant found <==> exists b :: b in r.branches.Keys - todo && BeforeDot(b + ".txt") == name
      decreases todo
    {
      var b :| b in todo;
      var base := FilenameWithoutExtension(b + ".txt");
      FilenameWithoutExtensionIsBeforeDot(b + ".txt", base);
      if base == name {
        found := true;
        break;
      }
      todo := todo - {b};
    }
  }

  /** The loop over the working directory that looks for an untracked file.
      untracked(f) reads the head commit for any file but the repository
      folder, and that read throws when HEAD names a branch whose file is
      gone. */
  method FindUntracked(r: Repository) returns (any: bool, crash: bool)
    requires r.Valid()
    ensures crash <==> r.head !in r.branches && r.AnyWorkingFile()
    ensures any ==> !crash && r.Ready()
    ensures r.Ready() ==> (any <==> r.AnyUntracked())
  {
    any, crash := false, false;
    var todo := r.wd.Keys;
    while todo != {}
      invariant todo <= r.wd.Keys
      invariant !any && !crash
      invariant r.head !in r.branches ==> forall f :: f in r.wd && f !in todo ==> f == GitletDir
      invariant r.Ready() ==> forall f :: f in r.wd && f !in todo ==> !r.Untracked(f)
      decreases todo
    {
      var f :| f in todo;
      if f != GitletDir {
        if r.head !in r.branches {
          crash := true;
          return;
        }
        if r.Untracked(f) {
          any := true;
          return;
        }
      }
      todo := todo - {f};
    }
  }

  /** The first loop over the listed working files: each one the new head
      does not track is deleted. */
  method DeleteUntracked(r: Repository, tracked: set<Name>)
    modifies r`wd
    ensures r.commits == old(r.commits) && r.blobs == old(r.blobs) && r.branches == old(r.branches)
            && r.depth == old(r.depth) && r.head == old(r.head) && r.stageAdd == old(r.stageAdd)
            && r.stageRm == old(r.stageRm)
    ensures r.wd == map f | f in old(r.wd) && f in tracked :: old(r.wd)[f]
  {
    var cwdFiles := r.wd.Keys;
    var todo := cwdFiles;
    while todo != {}
      invariant todo <= cwdFiles
      invariant r.wd == map f | f in old(r.wd) && (f in todo || f in tracked) :: old(r.wd)[f]
      decreases todo
    {
      var f :| f in todo;
      if f !in tracked {
        r.wd := r.wd - {f};
      }
      todo := todo - {f};
    }
  }

  /** The second loop: every file the new head tracks is created when
      missing and given its blob's text. */
  method WriteTracked(r: Repository, c: CommitData)
    requires BlobsPresent(c, r.blobs)
    modifies r`wd
    ensures r.commits == old(r.commits) && r.blobs == old(r.blobs) && r.branches == old(r.branches)
            && r.depth == old(r.depth) && r.head == old(r.head) && r.stageAdd == old(r.stageAdd)
            && r.stageRm == old(r.stageRm)
    ensures r.wd == old(r.wd) + CheckedOut(c, r.blobs)
  {
    var todo := c.contents.Keys;
    while todo != {}
      invariant todo <= c.contents.Keys
      invariant r.wd == old(r.wd) + map f | f in c.contents && f !in todo :: r.blobs[c.contents[f]]
      decreases todo
    {
      var f :| f in todo;
      r.wd := r.wd[f := r.blobs[c.contents[f]]];
      todo := todo - {f};
    }
  }

  /** The three checks of checkoutBranch, in Java's order: the current
      branch, an unlisted branch, an untracked working file (the last check
      throws when the head commit cannot be read and a working file is
      there to ask about). */
  method CheckoutRefusal(r: Repository, newBranch: string) returns (refusal: Option<Outcome>)
    requires r.Valid()
    ensures refusal == Some(Failed([AlreadyOnBranch])) <==> newBranch == r.head
    ensures refusal == Some(Failed([NoSuchBranch])) <==> newBranch != r.head && !Listed(r.branches, newBranch)
    ensures refusal == Some(Crashed(MissingFile)) <==>
              newBranch != r.head && Listed(r.branches, newBranch) && r.head !in r.branches && r.AnyWorkingFile()
    ensures refusal == Some(Failed([UntrackedInTheWay])) <==>
              newBranch != r.head && Listed(r.branches, newBranch) && r.Ready() && r.AnyUntracked()
    ensures refusal.None? <==>
              newBranch != r.head && Listed(r.branches, newBranch)
              && (if r.Ready() then !r.AnyUntracked() else !r.AnyWorkingFile())
  {
    if r.head == newBranch {
      return Some(Failed([AlreadyOnBranch]));
    }
    var listed := BranchListed(r, newBranch);
    if !listed {
      return Some(Failed([NoSuchBranch]));
    }
    var untracked, crash := FindUntracked(r);
    if crash {
      return Some(Crashed(MissingFile));
    }
    if untracked {
      return Some(Failed([UntrackedInTheWay]));
    }
    refusal := None;
  }

  /** The rewrite half of checkoutBranch: HEAD names the branch, the working
      files the branch's head does not track are deleted, every tracked one
      holds its blob's text, and the stage is cleared. When the name is not a
      branch (a prefix of a dotted branch name passes the check above),
      getHead() reads a missing file after HEAD was rewritten. */
  method SwitchTo(r: Repository, newBranch: string) returns (out: Outcome)
    requires r.Valid()
    modifies r`wd, r`head, r`stageAdd, r`stageRm
    ensures r.commits == old(r.commits) && r.blobs == old(r.blobs) && r.branches == old(r.branches)
            && r.depth == old(r.depth)
    ensures r.Valid() && r.head == newBranch
    ensures newBranch !in r.branches ==>
              out == Crashed(MissingFile)
              && r.wd == old(r.wd) && r.stageAdd == old(r.stageAdd) && r.stageRm == old(r.stageRm)
    ensures newBranch in r.branches ==>
              && out == Done && r.Ready()
              && r.wd == CheckedOut(r.HeadCommit(), r.blobs)
              && r.stageAdd == map[] && r.stageRm == map[]
  {
    r.head := newBranch;
    if newBranch !in r.branches {
      return Crashed(MissingFile);
    }
    var newHead := r.HeadCommit();
    assert BlobsPresent(r.commits[r.commitId(newHead)], r.blobs);
    DeleteUntracked(r, newHead.contents.Keys);
    ghost var kept := r.wd;
    WriteTracked(r, newHead);
    assert r.wd == CheckedOut(newHead, r.blobs) by {
      assert kept.Keys <= newHead.contents.Keys;
    }
    Stage.Clear(r);
    assert r.HeadCommit() == newHead;
    out := Done;
  }

  /** checkoutBranch: a refusal prints its message and changes nothing;
      otherwise the working directory, HEAD and the stage are switched
      over. */
  method CheckoutBranch(r: Repository, newBranch: string) returns (out: Outcome)
    requires r.Valid()
    modifies r`wd, r`head, r`stageAdd, r`stageRm
    ensures r.commits == old(r.commits) && r.blobs == old(r.blobs) && r.branches == old(r.branches)
            && r.depth == old(r.depth)
    ensures r.Valid()
    ensures out != Done ==> r.wd == old(r.wd) && r.stageAdd == old(r.stageAdd) && r.stageRm == old(r.stageRm)
    ensures out.Failed? ==> r.head == old(r.head)
    ensures out == Failed([AlreadyOnBranch]) <==> newBranch == old(r.head)
    ensures out == Failed([NoSuchBranch]) <==> newBranch != old(r.head) && !Listed(r.branches, newBranch)
    ensures out == Failed([UntrackedInTheWay]) <==>
              newBranch != old(r.head) && Listed(r.branches, newBranch) && old(r.Ready() && r.AnyUntracked())
    ensures out.Crashed? ==> out == Crashed(MissingFile)
    ensures out.Crashed? && r.head != old(r.head) ==> r.head == newBranch && newBranch !in r.branches
    ensures (newBranch != old(r.head) && Listed(r.branches, newBranch) && old(r.head) !in r.branches
             && old(r.AnyWorkingFile())) ==> out == Crashed(MissingFile) && r.head == old(r.head)
    ensures out == Done <==>
              newBranch != old(r.head) && Listed(r.branches, newBranch) && newBranch in r.branches
              && old(if r.Ready() then !r.AnyUntracked() else !r.AnyWorkingFile())
    ensures out == Done ==>
              && r.Ready() && r.head == newBranch
              && r.wd == CheckedOut(r.HeadCommit(), r.blobs)
              && r.stageAdd == map[] && r.stageRm == map[]
  {
    var refusal := CheckoutRefusal(r, newBranch);
    if refusal.Some? {
      return refusal.value;
    }
    out := SwitchTo(r, newBranch);
  }

  /** checkoutFileFromHead: checkout of one file from the head commit,
      which cannot be read when HEAD names a branch whose file is gone. */
  method CheckoutFileFromHead(r: Repository, f: Name) returns (out: Outcome)
    requires r.Valid()
    modifies r`wd
    ensures r.commits == old(r.commits) && r.blobs == old(r.blobs) && r.branches == old(r.branches)
            && r.depth == old(r.depth) && r.head == old(r.head) && r.stageAdd == old(r.stageAdd)
            && r.stageRm == old(r.stageRm)
    ensures r.head !in r.branches ==> out == Crashed(MissingFile) && r.wd == old(r.wd)
    ensures r.Ready() && f in r.HeadCommit().contents ==>
              out == Done && r.wd == old(r.wd)[f := r.blobs[r.HeadCommit().contents[f]]]
    ensures r.Ready() && f !in r.HeadCommit().contents ==> out == Failed([FileNotInCommit]) && r.wd == old(r.wd)
  {
    if r.head !in r.branches {
      return Crashed(MissingFile);
    }
    var head := r.HeadCommit();
    assert BlobsPresent(r.commits[r.commitId(head)], r.blobs);
    out := CheckoutFileFromCommit(r, Some(head), f);
  }

  /** Checkout of one file from the commit an (abbreviated) id names. */
  method CheckoutFileFromId(r: Repository, listing: seq<CommitData>, id: string, f: Name) returns (out: Outcome)
    requires r.Valid() && IsListing(listing, r.commits)
    modifies r`wd
    ensures r.commits == old(r.commits) && r.blobs == old(r.blobs) && r.branches == old(r.branches)
            && r.depth == old(r.depth) && r.head == old(r.head) && r.stageAdd == old(r.stageAdd)
            && r.stageRm == old(r.stageRm)
    ensures CommitByID(r, listing, id).None? ==> out == Failed([NoSuchCommit]) && r.wd == old(r.wd)
    ensures CommitByID(r, listing, id).Some? ==>
              var c := CommitByID(r, listing, id).value;
              && r.Stored(c)
              && (f !in c.contents ==> out == Failed([FileNotInCommit]) && r.wd == old(r.wd))
              && (f in c.contents ==> out == Done && r.wd == old(r.wd)[f := r.blobs[c.contents[f]]])
  {
    var c := GetCommitByID(r, listing, id);
    if c.Some? {
      assert BlobsPresent(r.commits[r.commitId(c.value)], r.blobs);
    }
    out := CheckoutFileFromCommit(r, c, f);
  }

  /** execute: two arguments check out a branch, three restore a file from
      the head commit, four restore a file from the commit an (abbreviated)
      id names; a refused argument shape only prints its message, and no
      arguments at all reach the switch's default, which throws. */
  method Execute(r: Repository, args: seq<string>, listing: seq<CommitData>) returns (out: Outcome)
    requires r.Valid() && IsListing(listing, r.commits)
    modifies r`wd, r`head, r`stageAdd, r`stageRm
    ensures r.commits == old(r.commits) && r.blobs == old(r.blobs) && r.branches == old(r.branches)
            && r.depth == old(r.depth)
    ensures r.Valid()
    ensures IncorrectOperands(args) ==>
              out == Failed([Error.IncorrectOperands]) && r.wd == old(r.wd) && r.head == old(r.head)
    ensures |args| == 0 ==> out == Crashed(UnexpectedCase) && r.wd == old(r.wd) && r.head == old(r.head)
    ensures |args| == 2 && out == Done ==>
              r.Ready() && r.head == args[1] && r.wd == CheckedOut(r.HeadCommit(), r.blobs)
              && r.stageAdd == map[] && r.stageRm == map[]
    ensures |args| == 2 && out.Failed? ==>
              r.wd == old(r.wd) && r.head == old(r.head) && r.stageAdd == old(r.stageAdd) && r.stageRm == old(r.stageRm)
    ensures |args| == 2 && args[1] in r.branches && (old(r.Ready()) || !old(r.AnyWorkingFile())) ==>
              !out.Crashed?
    ensures (|args| == 3 || |args| == 4) ==>
              r.head == old(r.head) && r.stageAdd == old(r.stageAdd) && r.stageRm == old(r.stageRm)
    ensures |args| == 3 && !IncorrectOperands(args) && !old(r.Ready()) ==>
              out == Crashed(MissingFile) && r.wd == old(r.wd)
    ensures |args| == 3 && !IncorrectOperands(args) && old(r.Ready()) ==>
              && (args[2] in old(r.HeadCommit()).contents
                  ==> out == Done && r.wd == old(r.wd)[args[2] := r.blobs[old(r.HeadCommit()).contents[args[2]]]])
              && (args[2] !in old(r.HeadCommit()).contents ==> out == Failed([FileNotInCommit]) && r.wd == old(r.wd))
    ensures |args| == 4 && !IncorrectOperands(args) ==>
              var c := CommitByID(r, listing, args[1]);
              && (c.None? ==> out == Failed([NoSuchCommit]) && r.wd == old(r.wd))
              && (c.Some? && args[3] !in c.value.contents ==> out == Failed([FileNotInCommit]) && r.wd == old(r.wd))
              && (c.Some? && args[3] in c.value.contents ==>
                    out == Done && r.wd == old(r.wd)[args[3] := r.blobs[c.value.contents[args[3]]]])
  {
    if IncorrectOperands(args) {
      return Failed([Error.IncorrectOperands]);
    }
    if |args| == 2 {
      out := CheckoutBranch(r, args[1]);
    } else if |args| == 3 {
      out := CheckoutFileFromHead(r, args[2]);
    } else if |args| == 4 {
      out := CheckoutFileFromId(r, listing, args[1], args[3]);
    } else {
      out := Crashed(UnexpectedCase);
    }
  }
}
