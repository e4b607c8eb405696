# gitlet in Dafny

A model of the core of gitlet, a small version-control system in Java. The
repository is one shared object, `Utils.Repository`, that stands for the
`.gitlet` folder and the working directory:

- the commits folder, `commits`, maps a commit id to the stored commit;
- the blob folder, `blobs`, maps a blob id to its text;
- the working directory, `wd`, maps a file name to its text;
- the stage's add and rm folders, `stageAdd` and `stageRm`, map a file name
  to its saved text;
- the branches folder, `branches`, maps a branch name to a commit id;
- `HEAD.txt`, `head`, holds the current branch's name.

SHA-1 and `Commit.id()` are uninterpreted functions, fixed when the
repository is made. The ghost field `depth` ranks every commit above its
parent. `Valid()` is the consistency the commands keep:

- the stage folders are disjoint;
- every commit is filed under its own id;
- parents and merge parents are stored;
- every blob a commit names exists;
- every branch points at a stored commit.

`Ready()` adds that HEAD names an existing branch. After `rm-branch` removes
the branch HEAD names, only `Valid()` holds, and the commands model what the
Java code does then. Reading the head commit throws, so the untracked-file
loops of checkout, reset and merge stop at the first working file.

Modules follow the Java files:

- `Types`: commits as stored, messages, outcomes.
- `Utils`: the repository, head pointers, `untracked`, `contentsMatch`,
  `filenameWithoutExtension`, `getCommitByID`.
- `SHATraversal` and `FindTraversal`: classes with the visit methods. The
  walk over the commits folder is a loop over a listing.
- `Stage`: add, remove and clear on the stage folders.
- `Commit`: a class with the constructor, the `commit` steps, the merge's
  three loops and `merge`. Module-level methods cover `initialCommit`,
  `minValue`, `getFromValue` and `latestCommonAncestor`. Pure functions
  (`Snapshot`, `Plan`, `SplitResolved`, `Merged`, `MergeResult`) specify
  those loops.
- `MergeProperties`: the per-name outcome of the merge, read off `Merged`.
- `CheckoutCommand`, `ResetCommand`, `MergeCommand`, `BranchCommand` and
  `RmBranchCommand`: the commands' checks and effects.

Each command returns an `Outcome`. `Done` means it ran to the end.
`Failed(messages)` lists the messages it printed and means the state is
unchanged. `Crashed(kind)` means an uncaught Java exception ended it.

In four places the ancestor search and the merge behave differently from
what one might expect. The model follows the code in each:

- **Disjoint histories.** One might expect a merge of two branches with
  no common ancestor to fail with a message. Instead `latestCommonAncestor`
  returns null, and `merge` returns without a commit and without a message
  (`Commit.NoAncestor`).
- **Which ancestor.** One might expect the split point to be the common
  ancestor with the least combined distance from both heads. The code picks
  a candidate of least *recorded* distance, which is the distance of the
  round on the candidate's own side.
- **Distances.** One might expect each side to record the least distance
  at which it reached a commit. `put` instead overwrites a path map's entry
  with the latest distance.
- **Symmetry.** One might expect the search to give the same ancestor when
  the two branches swap roles. On the given branch's side, though, the
  merge-parent test looks in the map the merge parent was just added to
  (Commit.java:249), so any merge parent on that side is a candidate. The
  search is therefore not symmetric, and the model proves no symmetry.

## Model

| member | source | states |
|---|---|---|
| Utils.ContentsMatchPartialEquivalence | gitlet/Utils.java:117-122 | matching is symmetric and transitive, and a version matches itself only when it exists |
| Utils.SameBlobMatchesIfStored | gitlet/Utils.java:117-122 | two snapshots that record the same blob id for a name match on it exactly when that blob file exists |
| Utils.Chain | gitlet/Commit.java:70-77 | the primary-parent chain of a stored commit starts at that commit and holds only stored commits |
| Utils.ChainStep | gitlet/Commit.java:70-77 | along the chain, each id is followed by its commit's parent, and only the last commit has no parent |
| Utils.Repository.SetUp | gitlet/InitCommand.java:28-46 | a fresh repository has no commits, blobs, branches or staged files, HEAD names "master", and it is consistent |
| Utils.Repository.HeadSha1 | gitlet/Utils.java:43-52 | a branch's file holds the id of a stored commit |
| Utils.Repository.Head | gitlet/Utils.java:54-59 | getHead(branch) is the stored commit whose id the branch's file holds |
| Utils.Repository.HeadCommit | gitlet/Utils.java:61-64 | getHead() is the stored commit of the branch HEAD names |
| Utils.Repository.Save | gitlet/Commit.java:176-182 | writing a commit file adds exactly that commit under its id, keeps the repository consistent and changes nothing else |
| Utils.Repository.SetHead | gitlet/Utils.java:66-77 | after setHead(c, b), branch b holds c's id; every other branch, HEAD and the rest are unchanged |
| Utils.UntrackedMeaning | gitlet/Utils.java:124-136 | a file is untracked iff it is not .gitlet and is either staged for removal or neither staged for addition nor tracked by HEAD |
| Utils.StagedNamesAndUntracked | gitlet/Utils.java:133-135 | a name staged for addition is never untracked; a name staged for removal always is |
| Utils.FilenameWithoutExtension | gitlet/Utils.java:82-91 | the result is a prefix of the name with no '.', followed by a '.' or the end of the name |
| Utils.BeforeDotUnique | gitlet/Utils.java:82-91 | exactly one prefix has no '.' and is followed by '.' or the end: the longest one without a '.' |
| Utils.FilenameWithoutExtensionIsBeforeDot | gitlet/Utils.java:82-91 | the loop's result is that unique prefix |
| Utils.BranchFileBaseName | gitlet/CheckoutCommand.java:85-91 | stripping the extension from "<b>.txt" gives back b iff b has no '.' |
| Utils.GetCommitByID | gitlet/Utils.java:99-114 | a full id gives the commit stored under it, or none; a shorter id gives the first commit in listing order whose id starts with it, and none iff no id does |
| SHATraversal.SHATraversal.constructor | gitlet/SHATraversal.java:14-17 | a new traversal has collected no ids |
| SHATraversal.SHATraversal.Visit | gitlet/SHATraversal.java:19-24 | visiting a commit appends its id iff the short id is a prefix of it |
| SHATraversal.FindId | gitlet/SHATraversal.java:20-32 | after visiting the listing, the result is null iff no id matched, else the first matching id in visit order |
| SHATraversal.CandidatesMatch | gitlet/SHATraversal.java:21-22 | every collected id starts with the short id and belongs to a visited commit |
| SHATraversal.CandidatesEmpty | gitlet/SHATraversal.java:27-30 | no id is collected iff no visited commit's id starts with the short id |
| SHATraversal.FirstCandidate | gitlet/SHATraversal.java:31 | the first collected id is that of the first matching commit, however many match |
| FindTraversal.FindTraversal.constructor | gitlet/FindTraversal.java:12-15 | the count starts at 0 and nothing is printed |
| FindTraversal.FindTraversal.Visit | gitlet/FindTraversal.java:18-23 | a commit with exactly the searched message adds 1 to the count and prints its id; any other commit changes nothing |
| FindTraversal.Find | gitlet/FindTraversal.java:12-28 | after visiting the listing, the count is the number of matching commits and the printed ids are theirs, in order |
| FindTraversal.MatchCountIsPositions | gitlet/FindTraversal.java:12-28 | the count equals the number of listing positions whose commit has the message |
| FindTraversal.PrintedPerMatch | gitlet/FindTraversal.java:18-23 | exactly one id is printed per counted commit |
| FindTraversal.NoMatch | gitlet/FindTraversal.java:26-28 | the count is 0 iff no visited commit has the message |
| Stage.Remove | gitlet/Stage.java:78-98 | a name staged for addition is only unstaged; otherwise a hard remove records the working text and deletes the working file, and a soft remove changes nothing |
| Stage.AddToStage | gitlet/Stage.java:50-72 | a pending removal is always cancelled; if the working file matches HEAD's version, only a pending addition is dropped; otherwise the add entry holds the working text |
| Stage.StageIfChanged | gitlet/Stage.java:57-71 | with no pending removal: an unchanged file drops its pending addition, a changed one is staged with its working text |
| Stage.RemoveHard | gitlet/Stage.java:100-103 | a name staged for addition is only unstaged; any other name ends staged for removal, holding its working text, and gone from the working directory; other removal entries are unchanged |
| Stage.TrackedOrContainsAndUntracked | gitlet/Stage.java:109-112 | a file other than .gitlet is tracked iff trackedOrContains accepts it and it is not staged for removal |
| Stage.Clear | gitlet/Stage.java:125-133 | both stage folders end empty and nothing else changes |
| CheckoutCommand.AcceptedOperands | gitlet/CheckoutCommand.java:30-41 | the accepted shapes are exactly: no arguments, `checkout b`, `checkout -- f`, `checkout id -- f` |
| CheckoutCommand.CheckedOut | gitlet/CheckoutCommand.java:104-121 | the checked-out working directory has exactly the commit's names, each holding its blob's text |
| CheckoutCommand.CheckoutFileFromCommit | gitlet/CheckoutCommand.java:46-64 | with no commit, or a name the commit does not track, only the message; otherwise only that working file changes, to the commit's text |
| CheckoutCommand.ListedBranches | gitlet/CheckoutCommand.java:83-91 | the existence loop finds every branch whose name has no '.', and never a name with a '.' |
| CheckoutCommand.DottedBranchPrefixListed | gitlet/CheckoutCommand.java:83-91 | the part of a dotted branch name before its first '.' passes the existence check |
| CheckoutCommand.BranchListed | gitlet/CheckoutCommand.java:83-91 | the loop finds a match iff some branch file's name, cut at its first '.', is the requested name |
| CheckoutCommand.FindUntracked | gitlet/CheckoutCommand.java:96-103 | it throws iff HEAD names a missing branch and some working file is not .gitlet; otherwise it finds an untracked file iff there is one |
| CheckoutCommand.DeleteUntracked | gitlet/CheckoutCommand.java:107-111 | exactly the working files the new head does not track are deleted |
| CheckoutCommand.WriteTracked | gitlet/CheckoutCommand.java:112-121 | every file the new head tracks is written with its blob's text, and other files are kept |
| CheckoutCommand.CheckoutRefusal | gitlet/CheckoutCommand.java:78-103 | each refusal (current branch, no such branch, a crash reading HEAD, an untracked file) happens exactly when the earlier checks passed and its own condition holds |
| CheckoutCommand.SwitchTo | gitlet/CheckoutCommand.java:104-122 | HEAD names the branch; if the branch has no file it throws with nothing else changed, otherwise the working directory is its head's checkout and the stage is empty |
| CheckoutCommand.CheckoutBranch | gitlet/CheckoutCommand.java:77-123 | it succeeds iff every refusal check passes and the name is a branch; success leaves HEAD on the branch, the head's checkout and an empty stage; a refusal changes nothing |
| CheckoutCommand.CheckoutFileFromHead | gitlet/CheckoutCommand.java:69-71 | it throws iff HEAD names a missing branch; otherwise it checks the file out of the head commit |
| CheckoutCommand.CheckoutFileFromId | gitlet/CheckoutCommand.java:136-138 | it checks the file out of the commit getCommitByID finds, with "no such commit" when there is none |
| CheckoutCommand.Execute | gitlet/CheckoutCommand.java:126-143 | refused shapes only print; 2 arguments check out a branch, 3 a file from HEAD, 4 a file from an id; no arguments throws |
| ResetCommand.AfterReset | gitlet/ResetCommand.java:46-57 | after a reset, every commit name holds its blob's text; any other file survives only as an allowed exception, untouched |
| ResetCommand.NoExceptionsIsCheckout | gitlet/ResetCommand.java:62-67 | reset(false) leaves exactly the commit's checkout |
| ResetCommand.WriteThenDelete | gitlet/ResetCommand.java:47-57 | writing the commit's files and then deleting the rest is the reset's working directory |
| ResetCommand.Check | gitlet/ResetCommand.java:17-40 | fewer than 2 arguments throws; the messages are the argument count, a missing commit and an untracked file in the way; it can go ahead iff there are 2 arguments, the commit exists and no untracked file would be lost |
| ResetCommand.ScanUntracked | gitlet/ResetCommand.java:31-39 | it throws on reading HEAD iff its branch is missing and a working file exists; it throws on a null commit iff some file is untracked; else it reports an untracked file the commit does not delete iff there is one |
| ResetCommand.CheckoutTracked | gitlet/ResetCommand.java:47-50 | every name the commit tracks holds its blob's text, and other files are kept |
| ResetCommand.DeleteOthers | gitlet/ResetCommand.java:51-57 | a working file survives iff the commit tracks it or it is an allowed exception |
| ResetCommand.Reset | gitlet/ResetCommand.java:46-60 | the working directory is AfterReset, HEAD's branch points at the commit, the stage is empty and HEAD can be read |
| ResetCommand.Execute | gitlet/ResetCommand.java:62-67 | the reset happens, without exceptions, iff every check passed; otherwise nothing changes |
| Commit.Snapshot | gitlet/Commit.java:130-156 | the new snapshot maps each staged addition to its text's hash, drops each staged removal and keeps every other parent entry |
| Commit.AtSplit | gitlet/Commit.java:374-385 | a split point name is adopted only when the given branch tracks it |
| Commit.Plan | gitlet/Commit.java:374-385 | every split point name gets the action the ordered tests pick on the first loop's snapshot |
| Commit.AdoptedNone | gitlet/Commit.java:369-373 | before the first loop visits any name, the snapshot is the current one |
| Commit.AdoptedAll | gitlet/Commit.java:369-373 | after every name is visited, the snapshot is the current one plus the names only the given branch tracks |
| Commit.AdoptStep | gitlet/Commit.java:369-373 | whether the first loop adopts a name does not depend on the names adopted before it |
| Commit.SameEntry | gitlet/Commit.java:284-334 | the five predicates and the conflict text for a name depend only on the snapshot's entry for that name |
| Commit.SplitResolvedNone | gitlet/Commit.java:374-385 | before the second loop handles any name, the snapshot is the first loop's |
| Commit.SplitResolvedStep | gitlet/Commit.java:374-385 | handling one more split point name changes only that name's entry |
| Commit.SplitResolvedApplied | gitlet/Commit.java:374-385 | handling one more name applies its planned action to the snapshot |
| Commit.AdoptedNameNamesNoBlob | gitlet/Commit.java:376 | the entry Java stores for an adopted name, "<id>.txt", names no blob |
| Commit.AdoptedAsWrittenKeepsWorkingText | gitlet/Commit.java:136-146 | with that entry, addBlobs completes only if the working file exists, and it then gives the entry the working text, which equals the given branch's text only when the two texts agree |
| Commit.AdoptedKeepsGivenVersion | gitlet/Commit.java:376 | storing the given branch's blob id gives the adopted name the given branch's text |
| Commit.WithConflictsStep | gitlet/Commit.java:386-390 | each conflict found by the third loop changes only its own entry |
| Commit.BlobsExtendedStep | gitlet/Commit.java:353-361 | writing one more conflict blob loses no blob and rewrites only that text's blob |
| Commit.SplitResolvedTracked | gitlet/Commit.java:374-385 | every id the second loop leaves comes from the first snapshot, the given branch or a conflict text |
| Commit.MergedTracked | gitlet/Commit.java:368-391 | every id in the merged snapshot names an existing blob when the inputs' ids do |
| Commit.WithConflictsTracked | gitlet/Commit.java:386-390 | every id the third loop leaves was there before or names a conflict text |
| Commit.ExtendedKeepsClosed | gitlet/Commit.java:355-361 | conflict blobs keep every stored commit's blobs present and every blob named by a full SHA-1 |
| Commit.SplitProgressStep | gitlet/Commit.java:374-385 | one more name handled keeps the second loop's snapshot, exceptions, deletions, conflict flag and blob folder as planned |
| Commit.CwdProgressStep | gitlet/Commit.java:386-390 | one more working file handled keeps the third loop's snapshot, conflict flag and blob folder as planned |
| Commit.Commit.constructor | gitlet/Commit.java:32-47 | the snapshot is an exact copy of the parent's, or empty without a parent; no merge parent, exceptions, deletions or conflict |
| Commit.Commit.TrackStaged | gitlet/Commit.java:131-135 | each staged name maps to the hash of its staged text; other entries are kept |
| Commit.Commit.WriteBlobs | gitlet/Commit.java:136-146 | existing blobs are never rewritten; a new blob holds the working file's text; a missing working file throws |
| Commit.Commit.AddBlobs | gitlet/Commit.java:130-147 | both loops: the staged hashes are tracked, every tracked id gets a blob, and existing blobs are kept |
| Commit.Commit.StopTracking | gitlet/Commit.java:152-156 | exactly the names staged for removal are dropped |
| Commit.Commit.ApplyStage | gitlet/Commit.java:173-175 | the snapshot becomes Snapshot of the stage, every tracked blob exists and the stage is empty |
| Commit.Commit.Store | gitlet/Commit.java:176-183 | the commit is filed under its id and HEAD's branch points at it; an id held by a different commit is reported |
| Commit.Commit.ApplyAndStore | gitlet/Commit.java:173-186 | after the stage is applied, the commit is stored, HEAD's branch points at it and the stage is empty |
| Commit.Commit.Record | gitlet/Commit.java:165-187 | an empty stage without the override changes nothing; otherwise Snapshot is recorded, HEAD's branch points at it, the stage is empty and old blobs are kept |
| Commit.Commit.MergeConflict | gitlet/Commit.java:339-362 | the conflict flag is set, the name maps to the hash of its conflict text, and that blob holds the text |
| Commit.Commit.AdoptGiven | gitlet/Commit.java:369-373 | every name only the given branch tracks takes its blob id; nothing else changes |
| Commit.Commit.ResolveSplitName | gitlet/Commit.java:375-384 | one split point name takes its planned action, with its exception, deletion, conflict and blob bookkeeping |
| Commit.Commit.ApplyAtSplit | gitlet/Commit.java:375-384 | adopt, except, delete or conflict change exactly the entry, list, flag and blob that action names |
| Commit.Commit.ResolveSplitStep | gitlet/Commit.java:375-384 | one pass of the second loop keeps its progress invariant |
| Commit.Commit.ResolveSplit | gitlet/Commit.java:374-385 | after the second loop, the snapshot is SplitResolved and the exceptions, deletions and conflicts are those the plan picks |
| Commit.Commit.ResolveCwdName | gitlet/Commit.java:387-389 | one working file outside the split point in conflict is replaced by its conflict blob |
| Commit.Commit.ResolveCwd | gitlet/Commit.java:386-390 | after the third loop, exactly the working files outside the split point in conflict hold conflict blobs |
| Commit.Commit.ResolveFilesAtSplitPoint | gitlet/Commit.java:368-391 | the snapshot becomes Merged, with exceptions, deletions and conflict flag as MergeResult, and only conflict blobs are added |
| Commit.Commit.ResolveInRepository | gitlet/Commit.java:368-391 | the merge's bookkeeping is MergeResult, the repository stays consistent, and the merged snapshot's blobs exist |
| Commit.Commit.RecordAndReset | gitlet/Commit.java:405-407 | commit(true) then reset(true): the commit is stored, HEAD's branch points at it, the working directory keeps its exceptions, the stage is empty |
| Commit.Commit.MergeAt | gitlet/Commit.java:404-407 | once the split point is known, the stored merge commit is MergeResult's snapshot, checked out |
| Commit.Commit.Merge | gitlet/Commit.java:398-408 | the merge parent is the given head; with no split point nothing else changes (or the branch is fast-forwarded); otherwise the merge commit is stored and checked out |
| Commit.InitialCommit | gitlet/Commit.java:121-125 | the first commit has no parent, message "initial commit", date 0, and is the only stored commit, pointed to by HEAD's branch |
| Commit.MinValue | gitlet/Commit.java:195-203 | the result is at most every value and Integer.MAX_VALUE; it is MAX_VALUE for an empty map, otherwise a value of the map |
| Commit.GetFromValue | gitlet/Commit.java:208-215 | null when no key has the value; otherwise the commit of some key with that value |
| Commit.ChainIsChain | gitlet/Commit.java:70-77 | Chain lists a well-formed parent chain, and every merge parent is stored |
| Commit.MainStep | gitlet/Commit.java:228-243 | the current side records its commit and, at one step further, its merge parent in its path map; a recorded commit or merge parent that is already in the given side's map becomes a candidate, and one is found exactly then; the walk moves to the parent; an exhausted side changes nothing |
| Commit.OtherStep | gitlet/Commit.java:244-259 | the given side does the same, but tests the merge parent in the map it was just added to, so every merge parent on this side becomes a candidate (line 249); a candidate is found exactly when the commit is in the current side's map or has a merge parent |
| Commit.Search | gitlet/Commit.java:221-264 | the loop ends; every candidate is a stored commit at a distance ≥ 0; with no candidate, the two chains are disjoint and the given side has no merge parent |
| Commit.SearchCandidates | gitlet/Commit.java:220-264 | the search runs from the two branch heads |
| Commit.ChooseAncestor | gitlet/Commit.java:265 | the chosen ancestor is a candidate of least distance, and none only when no distance is within MAX_VALUE |
| Commit.FastForwardTo | gitlet/Commit.java:273-276 | the fast-forward checkout never throws; on success HEAD is on the given branch with its checkout and an empty stage |
| Commit.LatestCommonAncestor | gitlet/Commit.java:220-279 | no ancestor, or the given head as the ancestor, changes nothing; the current head as the ancestor checks out the given branch; otherwise the split point is the stored ancestor |
| MergeProperties.SplitDoneEntry | gitlet/Commit.java:374-385 | after the second loop, each name's entry is the one SplitEntry takes from the plan |
| MergeProperties.MergedEntry | gitlet/Commit.java:386-390 | a working file in conflict outside the split point holds its conflict blob; any other name keeps the second loop's entry |
| MergeProperties.GivenOnlyAdopted | gitlet/Commit.java:369-373 | a name only the given branch tracks ends with its blob id (or a two-empty-sides conflict blob when that id has no blob and the file is in the working directory), never an exception or a deletion |
| MergeProperties.SplitNameResolved | gitlet/Commit.java:374-385 | a split point name is adopted, kept as an exception, deleted, made a conflict or kept, by the first test that holds; it is an exception, a deletion or a conflict exactly then |
| MergeProperties.OutsideSplitResolved | gitlet/Commit.java:386-390 | any other name keeps the current entry unless it is a working file in conflict, which is then the only case that gets a conflict blob |
| MergeProperties.EmptyStageSnapshot | gitlet/Commit.java:130-156 | with nothing staged, the recorded snapshot is the parent's |
| MergeProperties.ConflictTextMissingSide | gitlet/Commit.java:343-352 | a side that is untracked or has no blob file reads as an empty file in the conflict text; with both sides missing only the markers remain |
| MergeCommand.UntrackedFiles | gitlet/MergeCommand.java:37-43 | the files the loop reports are exactly the untracked working files |
| MergeCommand.RefusalsEmpty | gitlet/MergeCommand.java:15-43 | nothing is refused iff there are 2 arguments, the stage is empty, the branch exists and is not HEAD, and no working file is untracked |
| MergeCommand.UntrackedMessageCount | gitlet/MergeCommand.java:37-43 | one "untracked file" message is printed per untracked file |
| MergeCommand.UntrackedMessages | gitlet/MergeCommand.java:37-43 | one message per untracked file; it throws iff HEAD names a missing branch and some working file is not .gitlet |
| MergeCommand.Check | gitlet/MergeCommand.java:15-44 | fewer than 2 arguments throws; a crash reading HEAD is reported; otherwise the checks' messages in order, and Done iff there are none |
| MergeCommand.Execute | gitlet/MergeCommand.java:47-55 | a refusal changes nothing; otherwise a commit "Merged b into h." with HEAD's id as parent and the given head as merge parent is built and merged |
| MergeCommand.MergeBranch | gitlet/MergeCommand.java:49-53 | the merge commit's message, parent, branch and merge parent are those of execute, and a split point leads to a stored, checked-out merge commit |
| BranchCommand.Execute | gitlet/BranchCommand.java:29-44 | a wrong argument count or an existing name changes nothing; otherwise exactly the new branch is added, pointing at the head commit |
| BranchCommand.NewBranchKeepsOthers | gitlet/BranchCommand.java:42 | a new branch leaves every other branch where it was |
| BranchCommand.NewBranchThenRemove | gitlet/BranchCommand.java:38-42 | removing a just-created branch gives back the branches there were |
| RmBranchCommand.Execute | gitlet/RmBranchCommand.java:27-40 | a missing branch, or the branch the head commit records, is refused with no change; otherwise only that branch is removed |
| RmBranchCommand.RemoveKeepsOthers | gitlet/RmBranchCommand.java:38 | removing a branch leaves every other branch where it was |

## Left out

- The "Not in an initialized Gitlet directory." checks: the model always starts from an initialized repository.
- SHA-1 and Java serialization are uninterpreted functions (`Repository.sha1`, `Repository.commitId`). No property relies on them being injective.
- `Commit.date()` formatting and `new Date()`: the clock reading is the parameter `now`.
- Printing: messages become `Failed(messages)`. FindTraversal's printed ids are the `printed` sequence. The conflict and fast-forward notices are not modelled.
- Raw file operations, `IOException` paths and `File` identity: files are map entries keyed by name.
- The order of `HashMap` iteration and of `listFiles` is a nondeterministic choice in every loop. Every contract holds for each order.
- `Stage.updateContents`: the stage's lists are the folder listings, so the model reads the folders directly.
- `Traversal.traverse`: the commits-folder walk is a sequence of commits in listing order.
- `Stage.AddToStage`: requires HEAD to name an existing branch. With a missing branch file, `getHead()` would throw; this is not modelled.
- Commit.Commit.ResolveFilesAtSplitPoint: reads blob texts as they were when the merge began, while Java reads them live. The two differ only when a conflict blob written earlier in the same merge has the id of a blob read later.
- Commit.Commit.Store: a new commit whose id is held by a different stored commit stops with `Crashed(HashCollision)`. Java overwrites that file, which would break the parent chains.
- A `Crashed` outcome does not list the messages printed before the exception.
- BranchCommand.Execute: when HEAD names a missing branch, the model returns `Crashed(MissingFile)` and leaves the branches unchanged. Java behaves in two ways here:
  - For another name, Java throws after creating the new, empty branch file.
  - For the very name HEAD holds, Java creates that file, reads it back as an empty id, writes it, and returns normally, so the branch exists and points at no commit.
  The model keeps every branch pointing at a stored commit, so it records neither state.
- CheckoutCommand.DeleteUntracked and ResetCommand.DeleteOthers: a `.gitlet` entry in `wd` would be deleted like any other file. Java's `delete()` on that non-empty folder fails silently. The working directory is modelled as plain files, and such an entry is not kept.
- LogCommand, GlobalLogCommand, LogTraversal, StatusCommand and FindCommand print only, and are not modelled. Main.java, Command.java and the argument checks of InitCommand, AddCommand, RmCommand and CommitCommand are not modelled either.
- Commit.Search: does not state the distances recorded in the path maps. It states only that candidates are stored commits, and what an empty result implies.
- Commit.GetFromValue: picks some key with the value, where Java picks the first key in `HashMap` order.
- Commit.LatestCommonAncestor: symmetry in the two branches is not proved; the code is not symmetric (Commit.java:249).

## Findings

| source | as written | input that shows it | evidently intended | confidence | as-written member | corrected member |
|---|---|---|---|---|---|---|
| gitlet/Commit.java:376 | an adopted name stores `other.getVersionOf(f).getName()`, the blob's file name "<id>.txt", in the merge commit's snapshot | a file tracked by the split point and both heads, unchanged on the current branch and changed on the given branch. commit(true) then finds no blob file ".gitlet/files/<id>.txt.txt", and addBlobs (lines 136-146) creates it from the working file. If the working file exists, the merge commit keeps the working text, and the given branch's change is lost. If the working file was deleted, the merge throws. | store the given branch's blob id, `other.getContents().get(f)`, as line 371 does | not executed | Commit.AdoptedAsWrittenKeepsWorkingText | Commit.AdoptedKeepsGivenVersion (used by Commit.Commit.ApplyAtSplit) |
