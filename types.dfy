/** Values shared by every part of the gitlet model: optional values, file
    names, SHA-1 ids, the persisted form of a commit, and the outcomes that
    the commands report. */
module Types {

  datatype Option<+T> = None | Some(value: T)

  /** A file name in the (flat) working directory. */
  type Name = string

  /** Length of a full SHA-1 id written as hexadecimal. */
  const IdLength: nat := 40

  /** The output of the SHA-1 digest: always a 40-character string. */
  type Sha1 = s: string | |s| == IdLength
    witness "0000000000000000000000000000000000000000"

  /** A commit as it is stored in the commits folder: the serialized form of
      a Commit object. `contents` maps each tracked file name to the SHA-1 id
      of its blob; `exceptions` are the names a merge keeps in the working
      directory although they are untracked; `delFromMerge` the names a merge
      removed; `date` is the clock reading taken when the commit was made. */
  datatype CommitData = CommitData(
    parent: Option<string>,
    mergeParent: Option<string>,
    contents: map<Name, Sha1>,
    exceptions: set<Name>,
    delFromMerge: set<Name>,
    message: string,
    branch: string,
    date: int,
    hasConflict: bool)

  /** The one-line messages a command prints when it refuses to act. */
  datatype Error =
    | IncorrectOperands        // "Incorrect operands."
    | NoChanges                // "No changes added to the commit."
    | NoSuchCommit             // "No commit with that id exists."
    | FileNotInCommit          // "File does not exist in that commit."
    | AlreadyOnBranch          // "No need to checkout the current branch."
    | NoSuchBranch             // "No such branch exists."
    | UntrackedInTheWay        // "There is an untracked file in the way; ..."
    | UncommittedChanges       // "You have uncommitted changes."
    | SelfMerge                // "Cannot merge a branch with itself."
    | BranchDoesNotExist       // "A branch with that name does not exist."
    | BranchExists             // "A branch with that name already exists."
    | CannotRemoveCurrent      // "Cannot remove the current branch."

  /** The uncaught Java exceptions that end a command part way. */
  datatype Crash =
    | IndexOutOfBounds         // args[1] read from a too short array
    | NullPointer              // a method called on a null commit
    | MissingFile              // a file read that does not exist
    | UnexpectedCase           // Utils.error thrown from a switch default
    | HashCollision            // a new commit's id names a different stored commit

  /** What a command did: it ran to the end, it refused with the messages it
      printed (state unchanged), or it stopped with an exception. */
  datatype Outcome = Done | Failed(messages: seq<Error>) | Crashed(kind: Crash)
}
