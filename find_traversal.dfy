/** FindTraversal.java: counting, and printing the ids of, the visited
    commits whose message is exactly the one searched for. The directory
    listing that Traversal.traverse walks is given as a sequence of commits in
    listing order. */
module FindTraversal {
  import opened Types

  /** The number of visited commits whose message is `message`. */
  function MatchCount(message: string, visited: seq<CommitData>): nat
  {
    if visited == [] then 0
    else MatchCount(message, visited[..|visited| - 1])
         + (if visited[|visited| - 1].message == message then 1 else 0)
  }

  /** The ids, in visit order, of the visited commits whose message is
      `message`: what the traversal prints. */
  function MatchIds(message: string, visited: seq<CommitData>, idOf: CommitData -> Sha1): seq<string>
  {
    if visited == [] then []
    else MatchIds(message, visited[..|visited| - 1], idOf)
         + (if visited[|visited| - 1].message == message then [idOf(visited[|visited| - 1])] else [])
  }

  class FindTraversal {
    const message: string
    const idOf: CommitData -> Sha1
    var count: nat
    /** The ids printed so far. */
    var printed: seq<string>

    /** FindTraversal(message): nothing counted yet. */
    constructor (message: string, idOf: CommitData -> Sha1)
      ensures this.message == message && this.idOf == idOf && count == 0 && printed == []
    {
      this.message := message;
      this.idOf := idOf;
      count := 0;
      printed := [];
    }

    /** visit(c): a commit with exactly the searched message has its id
        printed and is counted; any other commit changes nothing. */
    method Visit(c: CommitData)
      modifies this`count, this`printed
      ensures c.message == message ==> count == old(count) + 1 && printed == old(printed) + [idOf(c)]
      ensures c.message != message ==> count == old(count) && printed == old(printed)
    {
      if c.message == message {
        printed := printed + [idOf(c)];
        count := count + 1;
      }
    }
  }

  /** Traversal.traverse followed by count(): visits every commit of the
      listing in order; `count` is the number of commits with the message
      and `printed` the ids printed on the way. */
  method Find(message: string, listing: seq<CommitData>, idOf: CommitData -> Sha1)
    returns (count: nat, printed: seq<string>)
    ensures count == MatchCount(message, listing)
    ensures printed == MatchIds(message, listing, idOf)
  {
    var t := new FindTraversal(message, idOf);
    var i := 0;
    while i < |listing|
      invariant 0 <= i <= |listing|
      invariant t.message == message && t.idOf == idOf
      invariant t.count == MatchCount(message, listing[..i])
      invariant t.printed == MatchIds(message, listing[..i], idOf)
    {
      assert listing[..i + 1][..i] == listing[..i];
      t.Visit(listing[i]);
      i := i + 1;
    }
    assert listing[..i] == listing;
    count, printed := t.count, t.printed;
  }

  /** The count is the number of positions of the listing holding a commit
      with the message. */
  lemma {:induction false} MatchCountIsPositions(message: string, visited: seq<CommitData>)
    ensures MatchCount(message, visited) == |set i | 0 <= i < |visited| && visited[i].message == message|
  {
    if visited != [] {
      var n := |visited| - 1;
      var init := visited[..n];
      MatchCountIsPositions(message, init);
      var before := set i | 0 <= i < n && init[i].message == message;
      var after := set i | 0 <= i < |visited| && visited[i].message == message;
      assert after == before + (if visited[n].message == message then {n} else {});
    }
  }

  /** One printed id per counted commit. */
  lemma {:induction false} PrintedPerMatch(message: string, visited: seq<CommitData>, idOf: CommitData -> Sha1)
    ensures |MatchIds(message, visited, idOf)| == MatchCount(message, visited)
  {
    if visited != [] {
      PrintedPerMatch(message, visited[..|visited| - 1], idOf);
    }
  }

  /** Nothing is counted exactly when no commit has the message, which is
      when find reports that no commit matched. */
  lemma {:induction false} NoMatch(message: string, visited: seq<CommitData>)
    ensures MatchCount(message, visited) == 0 <==> forall i :: 0 <= i < |visited| ==> visited[i].message != message
  {
    if visited != [] {
      var init := visited[..|visited| - 1];
      NoMatch(message, init);
      assert forall i :: 0 <= i < |init| ==> init[i] == visited[i];
    }
  }
}
