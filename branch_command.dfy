/** BranchCommand.java: creating a branch file that holds the id of the
    current head commit. */
module BranchCommand {
  import opened Types
  import opened Utils

  /** The constructor accepts exactly two arguments; execute then refuses a
      name whose branch file exists and otherwise writes the file holding
      getHeadSha1(), which throws when HEAD names a branch whose file is
      gone. */
  method Execute(r: Repository, args: seq<string>) returns (out: Outcome)
    requires r.Valid()
    modifies r`branches
    ensures r.commits == old(r.commits) && r.blobs == old(r.blobs) && r.depth == old(r.depth)
            && r.head == old(r.head) && r.wd == old(r.wd) && r.stageAdd == old(r.stageAdd)
            && r.stageRm == old(r.stageRm)
    ensures r.Valid() && (old(r.Ready()) ==> r.Ready() && r.HeadCommit() == old(r.HeadCommit()))
    ensures out != Done ==> r.branches == old(r.branches)
    ensures |args| != 2 ==> out == Failed([Error.IncorrectOperands])
    ensures |args| == 2 && args[1] in old(r.branches) ==> out == Failed([BranchExists])
    ensures |args| == 2 && args[1] !in old(r.branches) && r.head !in old(r.branches) ==>
              out == Crashed(MissingFile)
    ensures |args| == 2 && args[1] !in old(r.branches) && r.head in old(r.branches) ==>
              out == Done && r.branches == old(r.branches)[args[1] := old(r.branches)[r.head]]
  {
    if |args| != 2 {
      return Failed([Error.IncorrectOperands]);
    }
    var name := args[1];
    if name in r.branches {
      return Failed([BranchExists]);
    }
    if r.head !in r.branches {
      return Crashed(MissingFile);
    }
    r.branches := r.branches[name := r.HeadSha1(r.head)];
    out := Done;
  }

  /** A new branch leaves every other branch where it was, and its head is
      the current head commit. */
  lemma NewBranchKeepsOthers(branches: map<string, string>, name: string, id: string)
    requires name !in branches
    ensures var after := branches[name := id];
            && after.Keys == branches.Keys + {name} && after[name] == id
            && forall b :: b in branches ==> after[b] == branches[b]
  {
  }

  /** Removing the branch just created gives back the branches there were:
      branch and rm-branch undo each other. */
  lemma NewBranchThenRemove(branches: map<string, string>, name: string, id: string)
    requires name !in branches
    ensures branches[name := id] - {name} == branches
  {
    assert (branches[name := id] - {name}).Keys == branches.Keys;
  }
}
