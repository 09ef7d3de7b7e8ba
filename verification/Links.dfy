/** The link table of a group or deployment: instance identifiers, each linked once, in linking order. */
module Links {

  type Id = nat

  ghost predicate Distinct(links: seq<Id>) { forall i, j | 0 <= i < j < |links| :: links[i] != links[j] }

  /** The table after `DELETE ... WHERE instance_id = id`. */
  function Unlinked(links: seq<Id>, id: Id): seq<Id> {
    if links == [] then []
    else if links[0] == id then Unlinked(links[1..], id)
    else [links[0]] + Unlinked(links[1..], id)
  }

  method RemoveLink(links: seq<Id>, id: Id) returns (r: seq<Id>)
    ensures r == Unlinked(links, id)
  {
    r := [];
    for i := 0 to |links|
      invariant r + Unlinked(links[i..], id) == Unlinked(links, id)
    {
      assert links[i..][1..] == links[i + 1..];
      if links[i] != id { r := r + [links[i]]; }
    }
  }

  lemma DistinctTail(links: seq<Id>)
    requires links != [] && Distinct(links)
    ensures Distinct(links[1..]) && links[0] !in links[1..]
  {
    var tail := links[1..];
    forall i, j | 0 <= i < j < |tail| ensures tail[i] != tail[j] { assert links[i + 1] != links[j + 1]; }
    forall i | 0 <= i < |tail| ensures tail[i] != links[0] { assert tail[i] == links[i + 1]; }
  }

  lemma {:induction false} UnlinkedMembers(links: seq<Id>, id: Id)
    ensures forall x :: x in Unlinked(links, id) <==> x in links && x != id
    ensures |Unlinked(links, id)| <= |links|
  {
    if links != [] {
      UnlinkedMembers(links[1..], id);
      assert forall x :: x in links <==> x == links[0] || x in links[1..];
    }
  }

  /** Exactly the one identifier goes. */
  lemma {:induction false} UnlinkedContents(links: seq<Id>, id: Id)
    requires Distinct(links)
    ensures Distinct(Unlinked(links, id))
    ensures forall x :: x in Unlinked(links, id) <==> x in links && x != id
    ensures |Unlinked(links, id)| == if id in links then |links| - 1 else |links|
  {
    if links != [] {
      DistinctTail(links);
      UnlinkedMembers(links, id);
      UnlinkedMembers(links[1..], id);
      UnlinkedContents(links[1..], id);
    }
  }

  lemma {:induction false} UnlinkedAbsent(links: seq<Id>, id: Id)
    requires id !in links
    ensures Unlinked(links, id) == links
  {
    if links != [] {
      UnlinkedAbsent(links[1..], id);
      assert links == [links[0]] + links[1..];
    }
  }

  lemma UnlinkedFirst(links: seq<Id>)
    requires links != [] && Distinct(links)
    ensures Unlinked(links, links[0]) == links[1..]
  {
    DistinctTail(links);
    UnlinkedAbsent(links[1..], links[0]);
  }

  lemma {:induction false} UnlinkedLast(links: seq<Id>)
    requires links != [] && Distinct(links)
    ensures Unlinked(links, links[|links| - 1]) == links[..|links| - 1]
  {
    if |links| > 1 {
      var tail := links[1..];
      DistinctTail(links);
      UnlinkedLast(tail);
      assert links[0] != links[|links| - 1] && tail[|tail| - 1] == links[|links| - 1];
      assert links[..|links| - 1] == [links[0]] + tail[..|tail| - 1];
    }
  }
}
