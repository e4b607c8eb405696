/** RmBranchCommand.java: deleting a branch file, refused for a missing
    branch and for the branch the head commit records. */
module RmBranchCommand {
  import opened Types
  import opened Utils

  /** The constructor accepts exactly two arguments. execute refuses a name
      with no branch file, then reads the head commit (it throws when HEAD
      names a branch whose file is gone) and refuses the branch that commit
      records as its own; otherwise the branch file is deleted. The refusal
      compares with the recorded branch, not with the name HEAD holds: when
      the head commit was made on another branch, the branch HEAD names can
      be deleted, after which HEAD names no branch. */
  method Execute(r: Repository, args: seq<string>) returns (out: Outcome)
    requires r.Valid()
    modifies r`branches
    ensures r.commits == old(r.commits) && r.blobs == old(r.blobs) && r.depth == old(r.depth)
            && r.head == old(r.head) && r.wd == old(r.wd) && r.stageAdd == old(r.stageAdd)
            && r.stageRm == old(r.stageRm)
    ensures r.Valid()
    ensures out != Done ==> r.branches == old(r.branches)
    ensures |args| != 2 ==> out == Failed([Error.IncorrectOperands])
    ensures |args| == 2 && args[1] !in old(r.branches) ==> out == Failed([BranchDoesNotExist])
    ensures |args| == 2 && args[1] in old(r.branches) && r.head !in old(r.branches) ==>
              out == Crashed(MissingFile)
    ensures |args| == 2 && args[1] in old(r.branches) && old(r.Ready()) ==>
              && (args[1] == old(r.HeadCommit()).branch ==> out == Failed([CannotRemoveCurrent]))
              && (args[1] != old(r.HeadCommit()).branch ==>
                    out == Done && r.branches == old(r.branches) - {args[1]})
    ensures out == Done && args[1] == r.head ==> !r.Ready()
  {
    if |args| != 2 {
      return Failed([Error.IncorrectOperands]);
    }
    var name := args[1];
    if name !in r.branches {
      return Failed([BranchDoesNotExist]);
    }
    if r.head !in r.branches {
      return Crashed(MissingFile);
    }
    if name == r.HeadCommit().branch {
      return Failed([CannotRemoveCurrent]);
    }
    r.branches := r.branches - {name};
    out := Done;
  }

  /** Removing a branch leaves every other branch where it was. */
  lemma RemoveKeepsOthers(branches: map<string, string>, name: string)
    ensures var after := branches - {name};
            && after.Keys == branches.Keys - {name}
            && forall b :: b in after ==> after[b] == branches[b]
  {
  }
}
