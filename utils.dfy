/** Utils.java: the repository's persistent state (the .gitlet folder and the
    working directory) and the helpers every command shares — the branch
    pointers behind getHead/getHeadSha1/setHead, file-content comparison,
    untracked files, abbreviated ids and file-name extensions. */
module Utils {
  import opened Types
  import SHATraversal

  /** Name of the repository folder inside the working directory. */
  const GitletDir: Name := ".gitlet"

  /** The content a commit records for file `f`: the text of its blob file,
      or None when the commit does not track `f` (getVersionOf returns null)
      or the blob file is missing. */
  function Version(contents: map<Name, Sha1>, blobs: map<string, string>, f: Name): Option<string>
  {
    if f in contents && contents[f] in blobs then Some(blobs[contents[f]]) else None
  }

  /** contentsMatch: two files match when both exist and hold the same text;
      a missing side never matches, not even another missing side. */
  function ContentsMatch(a: Option<string>, b: Option<string>): bool
  {
    a.Some? && b.Some? && a.value == b.value
  }

  /** contentsMatch is symmetric and transitive, but holds of a version
      with itself only when that version exists. */
  lemma ContentsMatchPartialEquivalence(a: Option<string>, b: Option<string>, c: Option<string>)
    ensures ContentsMatch(a, b) == ContentsMatch(b, a)
    ensures ContentsMatch(a, b) && ContentsMatch(b, c) ==> ContentsMatch(a, c)
    ensures ContentsMatch(a, a) <==> a.Some?
  {
  }

  /** Two snapshots that record the same blob id for `f` match exactly when
      that blob file exists. */
  lemma SameBlobMatchesIfStored(x: map<Name, Sha1>, y: map<Name, Sha1>, blobs: map<string, string>, f: Name)
    requires f in x && f in y && x[f] == y[f]
    ensures ContentsMatch(Version(x, blobs, f), Version(y, blobs, f)) <==> x[f] in blobs
  {
  }

  /** Every stored commit is filed under its own id. */
  ghost predicate Keyed(commits: map<string, CommitData>, commitId: CommitData -> Sha1)
  {
    forall id :: id in commits ==> commitId(commits[id]) == id
  }

  /** Parents and merge parents are stored, and every parent sits strictly
      lower in `depth`, so parent chains are finite. */
  ghost predicate Linked(commits: map<string, CommitData>, depth: map<string, nat>)
  {
    forall id :: id in commits ==>
      && id in depth
      && (commits[id].parent.Some? ==>
            commits[id].parent.value in commits && commits[id].parent.value in depth
            && depth[commits[id].parent.value] < depth[id])
      && (commits[id].mergeParent.Some? ==> commits[id].mergeParent.value in commits)
  }

  /** Filing a commit whose parents are stored, at a rank above its
      parent's, keeps the commits linked. */
  lemma AddKeepsLinked(commits: map<string, CommitData>, depth: map<string, nat>, id: string, c: CommitData, d: nat)
    requires Linked(commits, depth) && id !in commits
    requires c.parent.Some? ==> c.parent.value in commits && depth[c.parent.value] < d
    requires c.mergeParent.Some? ==> c.mergeParent.value in commits
    ensures Linked(commits[id := c], depth[id := d])
  {
    forall k | k in commits
      ensures commits[k].parent.Some? ==> commits[k].parent.value != id
    {
    }
  }

  /** Every blob a commit refers to exists. */
  ghost predicate BlobsPresent(c: CommitData, blobs: map<string, string>)
  {
    forall n :: n in c.contents ==> c.contents[n] in blobs
  }

  /** Blob files are named by the SHA-1 of a text. */
  ghost predicate BlobIds(blobs: map<string, string>)
  {
    forall id :: id in blobs ==> |id| == IdLength
  }

  ghost predicate BlobsClosed(commits: map<string, CommitData>, blobs: map<string, string>)
  {
    forall id :: id in commits ==> BlobsPresent(commits[id], blobs)
  }

  /** The ids on the primary-parent chain from `id` down to the root. */
  ghost function Chain(commits: map<string, CommitData>, depth: map<string, nat>, id: string): (s: seq<string>)
    requires Linked(commits, depth) && id in commits
    ensures |s| >= 1 && s[0] == id
    ensures forall k :: 0 <= k < |s| ==> s[k] in commits
    decreases depth[id]
  {
    match commits[id].parent
    case None => [id]
    case Some(p) => [id] + Chain(commits, depth, p)
  }

  /** Walking the chain: each element's parent is the next element, and only
      the last element has no parent. */
  lemma {:induction false} ChainStep(commits: map<string, CommitData>, depth: map<string, nat>, id: string, k: nat)
    requires Linked(commits, depth) && id in commits && k < |Chain(commits, depth, id)|
    ensures var s := Chain(commits, depth, id);
            && (commits[s[k]].parent.Some? <==> k + 1 < |s|)
            && (k + 1 < |s| ==> s[k + 1] == commits[s[k]].parent.value)
    decreases depth[id]
  {
    if k > 0 {
      var p := commits[id].parent.value;
      ChainStep(commits, depth, p, k - 1);
    }
  }

  /** A directory listing of the commits folder: every stored commit, and
      nothing else, in the order listFiles returns them. */
  ghost predicate IsListing(listing: seq<CommitData>, commits: map<string, CommitData>)
  {
    && (forall j :: 0 <= j < |listing| ==> listing[j] in commits.Values)
    && (forall id :: id in commits ==> commits[id] in listing)
  }

  class Repository {
    /** The SHA-1 digest of a string (uninterpreted). */
    const sha1: string -> Sha1
    /** Commit.id(): the SHA-1 of a commit's serialization (uninterpreted). */
    const commitId: CommitData -> Sha1

    /** .gitlet/commits: commit id -> stored commit. */
    var commits: map<string, CommitData>
    /** .gitlet/files: blob id -> file text. */
    var blobs: map<string, string>
    /** The plain files of the working directory. */
    var wd: map<Name, string>
    /** .gitlet/stage/add and .gitlet/stage/rm: file name -> saved text. */
    var stageAdd: map<Name, string>
    var stageRm: map<Name, string>
    /** .gitlet/branches: branch name -> commit id. */
    var branches: map<string, string>
    /** .gitlet/HEAD.txt: the name of the current branch. */
    var head: string
    /** A rank for each stored commit, below that of its children. */
    ghost var depth: map<string, nat>

    ghost predicate Valid()
      reads this
    {
      && stageAdd.Keys !! stageRm.Keys
      && Keyed(commits, commitId)
      && Linked(commits, depth)
      && BlobsClosed(commits, blobs)
      && BlobIds(blobs)
      && (forall b :: b in branches ==> branches[b] in commits)
    }

    /** HEAD names an existing branch, so getHead() can be read. */
    ghost predicate Ready()
      reads this
    {
      Valid() && head in branches
    }

    /** `c` is in the commits folder, under its own id. */
    ghost predicate Stored(c: CommitData)
      reads this
    {
      commitId(c) in commits && commits[commitId(c)] == c
    }

    /** InitCommand.setUp: the folders of a fresh repository, HEAD naming
        "master", in front of the working directory `wd`. */
    constructor SetUp(sha1: string -> Sha1, commitId: CommitData -> Sha1, wd: map<Name, string>)
      ensures Valid()
      ensures this.sha1 == sha1 && this.commitId == commitId && this.wd == wd
      ensures commits == map[] && blobs == map[] && branches == map[] && head == "master"
      ensures stageAdd == map[] && stageRm == map[]
    {
      this.sha1 := sha1;
      this.commitId := commitId;
      this.wd := wd;
      commits, blobs, branches := map[], map[], map[];
      stageAdd, stageRm := map[], map[];
      head := "master";
      depth := map[];
    }

    /** getHeadSha1(branch): the id written in the branch's file. */
    function HeadSha1(branch: string): (id: string)
      reads this
      requires Valid() && branch in branches
      ensures id in commits
    {
      branches[branch]
    }

    /** getHead(branch): the commit stored under the branch's id. */
    function Head(branch: string): (c: CommitData)
      reads this
      requires Valid() && branch in branches
      ensures commitId(c) == HeadSha1(branch)
      ensures Stored(c)
    {
      commits[branches[branch]]
    }

    /** getHead(): the head commit of the branch HEAD names. */
    function HeadCommit(): (c: CommitData)
      reads this
      requires Ready()
      ensures commitId(c) == branches[head]
      ensures Stored(c)
    {
      Head(head)
    }

    /** Writes a new commit file under the commit's id; its parents are
        stored already, so it ranks above them. */
    method Save(c: CommitData)
      requires Valid() && BlobsPresent(c, blobs) && commitId(c) !in commits
      requires c.parent.Some? ==> c.parent.value in commits
      requires c.mergeParent.Some? ==> c.mergeParent.value in commits
      modifies this`commits, this`depth
      ensures Valid()
      ensures commits == old(commits)[commitId(c) := c]
      ensures blobs == old(blobs) && branches == old(branches) && head == old(head)
      ensures wd == old(wd) && stageAdd == old(stageAdd) && stageRm == old(stageRm)
    {
      var id := commitId(c);
      var d := if c.parent.Some? then depth[c.parent.value] + 1 else 0;
      AddKeepsLinked(commits, depth, id, c, d);
      assert Keyed(commits[id := c], commitId) && BlobsClosed(commits[id := c], blobs);
      depth := depth[id := d];
      commits := commits[id := c];
    }

    /** setHead(c, branch): the branch's file now holds c.id(). */
    method SetHead(c: CommitData, branch: string)
      requires Valid() && commitId(c) in commits
      modifies this`branches
      ensures Valid()
      ensures commits == old(commits) && blobs == old(blobs) && depth == old(depth) && head == old(head)
      ensures wd == old(wd) && stageAdd == old(stageAdd) && stageRm == old(stageRm)
      ensures branches == old(branches)[branch := commitId(c)]
    {
      branches := branches[branch := commitId(c)];
    }

    /** untracked(f): the repository folder never is; any other name is when
        it is neither staged for addition nor tracked by the head commit, or
        when it is staged for removal. */
    predicate Untracked(f: Name)
      reads this
      requires Ready()
    {
      if f == GitletDir then false
      else (f !in stageAdd && Version(HeadCommit().contents, blobs, f).None?) || f in stageRm
    }

    /** Some entry of the working directory is not the repository folder:
        untracked() reaches getHead() for it. */
    predicate AnyWorkingFile()
      reads this
    {
      exists f :: f in wd && f != GitletDir
    }

    /** Some file of the working directory is untracked. */
    predicate AnyUntracked()
      reads this
      requires Ready()
    {
      exists f :: f in wd && Untracked(f)
    }
  }

  /** untracked(f) restated through the commit's tracked names: it holds
      exactly when `f` is not the repository folder and either it is staged
      for removal or it is neither staged for addition nor tracked by HEAD. */
  lemma UntrackedMeaning(r: Repository, f: Name)
    requires r.Ready()
    ensures r.Untracked(f)
            <==> f != GitletDir
                 && (f in r.stageRm || (f !in r.stageAdd && f !in r.HeadCommit().contents))
  {
    var h := r.HeadCommit();
    assert BlobsPresent(r.commits[r.commitId(h)], r.blobs);
  }

  /** A name staged for addition is tracked, and a name staged for removal
      is untracked, whatever HEAD says. */
  lemma StagedNamesAndUntracked(r: Repository, f: Name)
    requires r.Ready() && f != GitletDir
    ensures f in r.stageAdd ==> !r.Untracked(f)
    ensures f in r.stageRm ==> r.Untracked(f)
  {
  }

  /** filenameWithoutExtension: the characters of `f` before its first '.',
      built up one character at a time. */
  method FilenameWithoutExtension(f: string) returns (out: string)
    ensures out <= f
    ensures '.' !in out
    ensures |out| == |f| || f[|out|] == '.'
  {
    out := "";
    var i := 0;
    while i < |f|
      invariant 0 <= i <= |f|
      invariant out == f[..i]
      invariant '.' !in out
    {
      if f[i] == '.' {
        break;
      }
      out := out + [f[i]];
      i := i + 1;
    }
  }

  /** The longest prefix of `f` without a '.', as a function. */
  function BeforeDot(f: string): (r: string)
  {
    if f == [] || f[0] == '.' then "" else [f[0]] + BeforeDot(f[1..])
  }

  /** BeforeDot is the unique prefix that contains no '.' and is followed by
      a '.' or the end of the string. */
  lemma {:induction false} BeforeDotUnique(f: string, p: string)
    ensures (p <= f && '.' !in p && (|p| == |f| || f[|p|] == '.')) <==> p == BeforeDot(f)
  {
    if f != [] && f[0] != '.' {
      if p != [] {
        BeforeDotUnique(f[1..], p[1..]);
        if p <= f && '.' !in p && (|p| == |f| || f[|p|] == '.') {
          assert p[1..] <= f[1..] && '.' !in p[1..];
        } else if p == BeforeDot(f) {
          assert p[0] == f[0] && p[1..] == BeforeDot(f[1..]);
        }
      }
    }
  }

  /** FilenameWithoutExtension computes BeforeDot. */
  lemma FilenameWithoutExtensionIsBeforeDot(f: string, out: string)
    requires out <= f && '.' !in out && (|out| == |f| || f[|out|] == '.')
    ensures out == BeforeDot(f)
  {
    BeforeDotUnique(f, out);
  }

  /** A branch's file is "<name>.txt": stripping the extension gives back the
      branch name exactly when the name contains no '.'. */
  lemma {:induction false} BranchFileBaseName(b: string)
    ensures BeforeDot(b + ".txt") == b <==> '.' !in b
    ensures '.' !in BeforeDot(b + ".txt")
  {
    var f := b + ".txt";
    if '.' in b {
      var i :| 0 <= i < |b| && b[i] == '.';
      BeforeDotUnique(f, BeforeDot(f));
      assert f[i] == '.';
    } else {
      BeforeDotUnique(f, b);
      assert f[|b|] == '.';
    }
    BeforeDotUnique(f, BeforeDot(f));
  }

  /** The commit getCommitByID returns: an id shorter than a full SHA-1
      stands for the first matching id in listing order. */
  function CommitByID(r: Repository, listing: seq<CommitData>, id: string): Option<CommitData>
    reads r
  {
    var full := if |id| >= IdLength then Some(id)
                else var cs := SHATraversal.Candidates(id, listing, r.commitId);
                     if cs == [] then None else Some(cs[0]);
    if full.Some? && full.value in r.commits then Some(r.commits[full.value]) else None
  }

  /** getCommitByID: an id shorter than a full SHA-1 is first resolved to the
      first matching id of the commits folder's listing; the commit is then
      read from the folder when it exists. */
  method GetCommitByID(r: Repository, listing: seq<CommitData>, id: string)
    returns (c: Option<CommitData>)
    requires r.Valid() && IsListing(listing, r.commits)
    ensures c == CommitByID(r, listing, id)
    ensures c.Some? ==> r.Stored(c.value)
    ensures |id| >= IdLength ==> c == (if id in r.commits then Some(r.commits[id]) else None)
    ensures |id| < IdLength ==>
              (c.None? <==> forall j :: 0 <= j < |listing| ==> !SHATraversal.MatchesPrefix(id, r.commitId(listing[j])))
    ensures |id| < IdLength && c.Some? ==>
              exists k :: 0 <= k < |listing| && c.value == listing[k]
                && SHATraversal.MatchesPrefix(id, r.commitId(listing[k]))
                && forall j :: 0 <= j < k ==> !SHATraversal.MatchesPrefix(id, r.commitId(listing[j]))
  {
    var full := id;
    if |id| < IdLength {
      var found := SHATraversal.FindId(id, listing, r.commitId);
      SHATraversal.CandidatesEmpty(id, listing, r.commitId);
      if found.None? {
        return None;
      }
      SHATraversal.FirstCandidate(id, listing, r.commitId);
      full := found.value;
      var k :| 0 <= k < |listing|
              && r.commitId(listing[k]) == full
              && SHATraversal.MatchesPrefix(id, r.commitId(listing[k]))
              && forall j :: 0 <= j < k ==> !SHATraversal.MatchesPrefix(id, r.commitId(listing[j]));
      assert listing[k] in r.commits.Values;
      var key :| key in r.commits && r.commits[key] == listing[k];
      assert full == key;
    }
    if full !in r.commits {
      return None;
    }
    c := Some(r.commits[full]);
  }
}
