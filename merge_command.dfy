/** MergeCommand.java: the checks made when the command is built, each
    printing its message, and execute, which builds the merge commit on the
    current branch and merges the given branch's head into it. */
module MergeCommand {
  import opened Types
  import opened Utils
  import Commit

  /** The working files untracked(f) accepts. */
  function UntrackedFiles(r: Repository): (s: set<Name>)
    reads r
    requires r.Ready()
    ensures forall f :: f in s <==> f in r.wd && r.Untracked(f)
  {
    set f | f in r.wd && r.Untracked(f)
  }

  /** `n` copies of message `e`. */
  function Repeated(e: Error, n: nat): (s: seq<Error>)
    ensures |s| == n && forall i :: 0 <= i < n ==> s[i] == e
  {
    seq(n, _ => e)
  }

  /** The messages the constructor prints once args[1] can be read, in
      order: the argument count, a non-empty stage, a merge of the current
      branch, a missing branch, and one message per untracked working file
      (none when the head commit cannot be read, which leaves only the
      repository folder to pass the untracked loop without throwing). */
  function Refusals(r: Repository, args: seq<string>): seq<Error>
    reads r
    requires r.Valid() && |args| >= 2
  {
    (if |args| != 2 then [Error.IncorrectOperands] else [])
    + (if r.stageAdd != map[] || r.stageRm != map[] then [UncommittedChanges] else [])
    + (if args[1] == r.head then [SelfMerge] else [])
    + (if args[1] !in r.branches then [BranchDoesNotExist] else [])
    + (if r.head in r.branches then Repeated(Error.UntrackedInTheWay, |UntrackedFiles(r)|) else [])
  }

  /** The merge may go ahead exactly when there are two arguments, nothing
      is staged, the given branch exists and is not the current one, and no
      working file is untracked. */
  lemma RefusalsEmpty(r: Repository, args: seq<string>)
    requires r.Valid() && |args| >= 2
    ensures Refusals(r, args) == [] <==>
              && |args| == 2 && r.stageAdd == map[] && r.stageRm == map[]
              && args[1] != r.head && args[1] in r.branches && (r.Ready() ==> !r.AnyUntracked())
  {
    if !r.Ready() {
    } else if r.AnyUntracked() {
      var f :| f in r.wd && r.Untracked(f);
      assert f in UntrackedFiles(r);
    } else {
      assert UntrackedFiles(r) == {};
    }
  }

  /** Every untracked working file prints its own message: the count of
      those messages is the number of untracked files, whatever else was
      refused. */
  lemma UntrackedMessageCount(r: Repository, args: seq<string>)
    requires r.Ready() && |args| >= 2
    ensures multiset(Refusals(r, args))[Error.UntrackedInTheWay] == |UntrackedFiles(r)|
  {
    var head := (if |args| != 2 then [Error.IncorrectOperands] else [])
                + (if r.stageAdd != map[] || r.stageRm != map[] then [UncommittedChanges] else [])
                + (if args[1] == r.head then [SelfMerge] else [])
                + (if args[1] !in r.branches then [BranchDoesNotExist] else []);
    var tail := Repeated(Error.UntrackedInTheWay, |UntrackedFiles(r)|);
    assert Refusals(r, args) == head + tail;
    assert multiset(head)[Error.UntrackedInTheWay] == 0;
    RepeatedCount(Error.UntrackedInTheWay, |UntrackedFiles(r)|);
  }

  lemma {:induction false} RepeatedCount(e: Error, n: nat)
    ensures multiset(Repeated(e, n))[e] == n
  {
    if n > 0 {
      RepeatedCount(e, n - 1);
      assert Repeated(e, n) == Repeated(e, n - 1) + [e];
    }
  }

  /** The constructor's loop over the working files: one message per
      untracked file; a file other than the repository folder throws when
      the head commit cannot be read. */
  method UntrackedMessages(r: Repository) returns (messages: seq<Error>, crash: bool)
    requires r.Valid()
    ensures crash <==> !r.Ready() && r.AnyWorkingFile()
    ensures messages == if r.Ready() then Repeated(Error.UntrackedInTheWay, |UntrackedFiles(r)|) else []
  {
    messages, crash := [], false;
    ghost var found: set<Name> := {};
    var todo := r.wd.Keys;
    while todo != {}
      invariant todo <= r.wd.Keys
      invariant r.Ready() ==> found == set f | f in r.wd && f !in todo && r.Untracked(f)
      invariant messages == Repeated(Error.UntrackedInTheWay, |found|)
      invariant !r.Ready() ==> found == {} && forall f :: f in r.wd && f !in todo ==> f == GitletDir
      decreases todo
    {
      var f :| f in todo;
      if f != GitletDir {
        if r.head !in r.branches {
          messages, crash := [], true;
          return;
        }
        if r.Untracked(f) {
          assert Repeated(Error.UntrackedInTheWay, |found + {f}|)
                 == Repeated(Error.UntrackedInTheWay, |found|) + [Error.UntrackedInTheWay];
          messages := messages + [Error.UntrackedInTheWay];
          found := found + {f};
        }
      }
      todo := todo - {f};
    }
    if r.Ready() {
      assert found == UntrackedFiles(r);
    }
  }

  /** The constructor: the checks run in order, each printing its message;
      reading args[1] of a shorter array throws once the first two checks
      have printed theirs. */
  method Check(r: Repository, args: seq<string>) returns (out: Outcome)
    requires r.Valid()
    ensures |args| < 2 ==> out == Crashed(IndexOutOfBounds)
    ensures |args| >= 2 && !r.Ready() && r.AnyWorkingFile() ==> out == Crashed(MissingFile)
    ensures |args| >= 2 && (r.Ready() || !r.AnyWorkingFile()) ==>
              out == if Refusals(r, args) == [] then Done else Failed(Refusals(r, args))
  {
    var messages: seq<Error> := (if |args| != 2 then [Error.IncorrectOperands] else [])
                                + (if r.stageAdd != map[] || r.stageRm != map[] then [UncommittedChanges] else []);
    if |args| < 2 {
      return Crashed(IndexOutOfBounds);
    }
    var branch := args[1];
    var untracked, crash := UntrackedMessages(r);
    if crash {
      return Crashed(MissingFile);
    }
    messages := messages + (if branch == r.head then [SelfMerge] else [])
                + (if branch !in r.branches then [BranchDoesNotExist] else []) + untracked;
    out := if messages == [] then Done else Failed(messages);
  }

  /** The merge commit's message. */
  function MergeMessage(given: string, current: string): string
  {
    "Merged " + given + " into " + current + "."
  }

  /** execute: when every check passed, a commit on the current branch whose
      parent is the current head and whose message names both branches is
      built at clock reading `now`, and the given branch's head is merged
      into it; otherwise nothing happens. `merge` is that commit and `split`
      what latestCommonAncestor decided. When HEAD names a branch whose file
      is gone, reading the current head's id throws before the commit is
      built. */
  method Execute(r: Repository, args: seq<string>, listing: seq<CommitData>, now: int)
    returns (out: Outcome, merge: Commit.Commit?, split: Commit.Split)
    requires r.Valid() && IsListing(listing, r.commits)
    modifies r`blobs, r`wd, r`head, r`stageAdd, r`stageRm, r`commits, r`branches, r`depth
    ensures r.Valid()
    ensures merge == null ==>
              && r.commits == old(r.commits) && r.branches == old(r.branches) && r.blobs == old(r.blobs)
              && r.wd == old(r.wd) && r.head == old(r.head)
              && r.stageAdd == old(r.stageAdd) && r.stageRm == old(r.stageRm)
    ensures |args| < 2 ==> out == Crashed(IndexOutOfBounds) && merge == null
    ensures |args| >= 2 && old(!r.Ready() && r.AnyWorkingFile()) ==> out == Crashed(MissingFile) && merge == null
    ensures |args| >= 2 && old(r.Ready() || !r.AnyWorkingFile()) && old(Refusals(r, args)) != [] ==>
              out == Failed(old(Refusals(r, args))) && merge == null
    ensures |args| >= 2 && !old(r.Ready()) && old(Refusals(r, args)) == [] ==>
              out == Crashed(MissingFile) && merge == null
    ensures |args| >= 2 && old(r.Ready()) && old(Refusals(r, args)) == [] ==>
              && merge != null && fresh(merge)
              && merge.message == MergeMessage(args[1], old(r.head))
              && merge.parent == Some(old(r.HeadSha1(r.head)))
              && merge.branch == old(r.head)
              && merge.mergeParent == Some(r.commitId(old(r.Head(args[1]))))
              && (!split.SplitAt? ==> out == Done && r.commits == old(r.commits) && r.branches == old(r.branches))
              && (split.SplitAt? && out == Done ==>
                    r.Ready() && r.HeadCommit() == merge.Data() && r.head == old(r.head)
                    && r.commits == old(r.commits)[r.commitId(merge.Data()) := merge.Data()])
  {
    merge := null;
    split := Commit.NoAncestor;
    out := Check(r, args);
    if out != Done {
      return;
    }
    RefusalsEmpty(r, args);
    if r.head !in r.branches {
      return Crashed(MissingFile), null, Commit.NoAncestor;
    }
    out, merge, split := MergeBranch(r, args[1], listing, now);
  }

  /** The body of execute once the checks passed. */
  method MergeBranch(r: Repository, given: string, listing: seq<CommitData>, now: int)
    returns (out: Outcome, merge: Commit.Commit, split: Commit.Split)
    requires r.Ready() && IsListing(listing, r.commits) && given in r.branches
    modifies r`blobs, r`wd, r`head, r`stageAdd, r`stageRm, r`commits, r`branches, r`depth
    ensures r.Valid() && fresh(merge)
    ensures merge.message == MergeMessage(given, old(r.head))
    ensures merge.parent == Some(old(r.HeadSha1(r.head))) && merge.branch == old(r.head)
    ensures merge.mergeParent == Some(r.commitId(old(r.Head(given))))
    ensures !split.SplitAt? ==> out == Done && r.commits == old(r.commits) && r.branches == old(r.branches)
    ensures split.SplitAt? && out == Done ==>
              r.Ready() && r.HeadCommit() == merge.Data() && r.head == old(r.head)
              && r.commits == old(r.commits)[r.commitId(merge.Data()) := merge.Data()]
  {
    var otherHead := r.Head(given);
    var message := MergeMessage(given, r.head);
    merge := new Commit.Commit(Some(r.HeadSha1(r.head)), message, r.head, now, r);
    var candidates;
    ghost var lca, merged;
    split, candidates, lca, out, merged := merge.Merge(r, otherHead, given, listing);
  }
}
