/** SHATraversal.java: resolving an abbreviated commit id by visiting every
    stored commit and collecting the ids that start with it. The directory
    listing that Traversal.traverse walks is given as a sequence of commits in
    listing order. */
module SHATraversal {
  import opened Types

  /** `shortID` equals the prefix of `id` of the same length. */
  predicate MatchesPrefix(shortID: string, id: string)
  {
    shortID <= id
  }

  /** The ids, in visit order, of the visited commits that match `shortID`. */
  function Candidates(shortID: string, visited: seq<CommitData>, idOf: CommitData -> Sha1): seq<string>
  {
    if visited == [] then []
    else
      var last := visited[|visited| - 1];
      Candidates(shortID, visited[..|visited| - 1], idOf)
        + (if MatchesPrefix(shortID, idOf(last)) then [idOf(last)] else [])
  }

  class SHATraversal {
    const shortID: string
    const idOf: CommitData -> Sha1
    var ids: seq<string>

    constructor (shortID: string, idOf: CommitData -> Sha1)
      ensures this.shortID == shortID && this.idOf == idOf && ids == []
    {
      this.shortID := shortID;
      this.idOf := idOf;
      ids := [];
    }

    /** Appends the commit's id when `shortID` is a prefix of it. The
        substring taken in the Java code needs `shortID` to be no longer than
        an id. */
    method Visit(c: CommitData)
      requires |shortID| <= IdLength
      modifies this`ids
      ensures ids == old(ids) + (if MatchesPrefix(shortID, idOf(c)) then [idOf(c)] else [])
    {
      if shortID == idOf(c)[..|shortID|] {
        ids := ids + [idOf(c)];
      }
    }

    /** The first collected id, or None when nothing matched. */
    function Id(): Option<string>
      reads this
    {
      if |ids| == 0 then None else Some(ids[0])
    }
  }

  /** Traversal.traverse followed by SHATraversal.id(): visits every commit
      of the listing in order and returns the first matching id. */
  method FindId(shortID: string, listing: seq<CommitData>, idOf: CommitData -> Sha1)
    returns (id: Option<string>)
    requires |shortID| <= IdLength
    ensures id.None? <==> Candidates(shortID, listing, idOf) == []
    ensures id.Some? ==> id.value == Candidates(shortID, listing, idOf)[0]
  {
    var t := new SHATraversal(shortID, idOf);
    var i := 0;
    while i < |listing|
      invariant 0 <= i <= |listing|
      invariant t.shortID == shortID && t.idOf == idOf
      invariant t.ids == Candidates(shortID, listing[..i], idOf)
    {
      assert listing[..i + 1][..i] == listing[..i];
      t.Visit(listing[i]);
      i := i + 1;
    }
    assert listing[..i] == listing;
    id := t.Id();
  }

  /** Every candidate starts with `shortID` and is the id of a visited
      commit. */
  lemma {:induction false} CandidatesMatch(shortID: string, visited: seq<CommitData>, idOf: CommitData -> Sha1, k: nat)
    requires k < |Candidates(shortID, visited, idOf)|
    ensures MatchesPrefix(shortID, Candidates(shortID, visited, idOf)[k])
    ensures exists j :: 0 <= j < |visited| && idOf(visited[j]) == Candidates(shortID, visited, idOf)[k]
  {
    var init := visited[..|visited| - 1];
    var last := visited[|visited| - 1];
    if k < |Candidates(shortID, init, idOf)| {
      CandidatesMatch(shortID, init, idOf, k);
      var j :| 0 <= j < |init| && idOf(init[j]) == Candidates(shortID, init, idOf)[k];
      assert visited[j] == init[j];
    } else {
      assert idOf(visited[|visited| - 1]) == Candidates(shortID, visited, idOf)[k];
    }
  }

  /** No candidate at all exactly when no visited commit's id starts with
      `shortID`. */
  lemma {:induction false} CandidatesEmpty(shortID: string, visited: seq<CommitData>, idOf: CommitData -> Sha1)
    ensures Candidates(shortID, visited, idOf) == []
            <==> forall j :: 0 <= j < |visited| ==> !MatchesPrefix(shortID, idOf(visited[j]))
  {
    if visited != [] {
      var init := visited[..|visited| - 1];
      CandidatesEmpty(shortID, init, idOf);
      assert forall j :: 0 <= j < |init| ==> init[j] == visited[j];
    }
  }

  /** The first candidate is the id of the first matching commit in visit
      order, however many commits match. */
  lemma {:induction false} FirstCandidate(shortID: string, visited: seq<CommitData>, idOf: CommitData -> Sha1)
    requires Candidates(shortID, visited, idOf) != []
    ensures exists k :: 0 <= k < |visited|
              && idOf(visited[k]) == Candidates(shortID, visited, idOf)[0]
              && MatchesPrefix(shortID, idOf(visited[k]))
              && forall j :: 0 <= j < k ==> !MatchesPrefix(shortID, idOf(visited[j]))
  {
    var init := visited[..|visited| - 1];
    assert forall j :: 0 <= j < |init| ==> init[j] == visited[j];
    if Candidates(shortID, init, idOf) == [] {
      CandidatesEmpty(shortID, init, idOf);
      var k := |visited| - 1;
      assert idOf(visited[k]) == Candidates(shortID, visited, idOf)[0];
    } else {
      FirstCandidate(shortID, init, idOf);
      var k :| 0 <= k < |init|
              && idOf(init[k]) == Candidates(shortID, init, idOf)[0]
              && MatchesPrefix(shortID, idOf(init[k]))
              && forall j :: 0 <= j < k ==> !MatchesPrefix(shortID, idOf(init[j]));
      assert idOf(visited[k]) == Candidates(shortID, visited, idOf)[0];
    }
  }
}
