/**
 * Target resolution, `getSelectedPagesWithoutStatus`: the selected PAGE
 * nodes that have no registry entry, followed by the current page when it
 * has none.
 */
module SelectionTracker {
  import opened StatusStore
  import opened PageRenamer

  /** The selection filtered to PAGE nodes without a registry entry, in selection order. */
  function UntaggedSelectedPages(statuses: Registry, nodes: NodeStore, selection: seq<PageId>): (r: seq<PageId>)
    ensures |r| <= |selection|
    ensures forall id :: id in r ==> IsPage(nodes, id) && id !in statuses
  {
    if selection == [] then []
    else
      var id := selection[0];
      (if IsPage(nodes, id) && id !in statuses then [id] else [])
        + UntaggedSelectedPages(statuses, nodes, selection[1..])
  }

  /** The pages a status operation applies to. */
  function Targets(statuses: Registry, nodes: NodeStore, selection: seq<PageId>, currentPage: PageId): (r: seq<PageId>)
    ensures forall id :: id in r ==> id !in statuses
    ensures currentPage !in statuses ==> currentPage in r
  {
    UntaggedSelectedPages(statuses, nodes, selection)
      + (if currentPage !in statuses then [currentPage] else [])
  }

  /** Filtering keeps selection order: the filter of a concatenation is the concatenation of the filters. */
  lemma {:induction false} UntaggedSelectedPagesAppend(statuses: Registry, nodes: NodeStore, s1: seq<PageId>, s2: seq<PageId>)
    ensures UntaggedSelectedPages(statuses, nodes, s1 + s2)
      == UntaggedSelectedPages(statuses, nodes, s1) + UntaggedSelectedPages(statuses, nodes, s2)
  {
    if s1 == [] {
      assert s1 + s2 == s2;
    } else {
      var id := s1[0];
      var head := if IsPage(nodes, id) && id !in statuses then [id] else [];
      assert (s1 + s2)[0] == id && (s1 + s2)[1..] == s1[1..] + s2;
      var t1, t2 := UntaggedSelectedPages(statuses, nodes, s1[1..]), UntaggedSelectedPages(statuses, nodes, s2);
      calc {
        UntaggedSelectedPages(statuses, nodes, s1 + s2);
        head + UntaggedSelectedPages(statuses, nodes, s1[1..] + s2);
        { UntaggedSelectedPagesAppend(statuses, nodes, s1[1..], s2); }
        head + (t1 + t2);
        (head + t1) + t2;
      }
    }
  }

  /** Filtering keeps every occurrence of a qualifying id and drops every other id: nothing is de-duplicated. */
  lemma {:induction false} UntaggedSelectedPagesCount(statuses: Registry, nodes: NodeStore, selection: seq<PageId>, id: PageId)
    ensures multiset(UntaggedSelectedPages(statuses, nodes, selection))[id]
      == if IsPage(nodes, id) && id !in statuses then multiset(selection)[id] else 0
  {
    if selection != [] {
      var x := selection[0];
      var head := if IsPage(nodes, x) && x !in statuses then [x] else [];
      var tail := UntaggedSelectedPages(statuses, nodes, selection[1..]);
      UntaggedSelectedPagesCount(statuses, nodes, selection[1..], id);
      assert selection == [x] + selection[1..];
      assert multiset(selection) == multiset([x]) + multiset(selection[1..]);
      assert multiset(head + tail) == multiset(head) + multiset(tail);
    }
  }

  /**
   * An id is a target exactly when it has no registry entry and is either
   * a selected PAGE node or the current page; it occurs as often as it is
   * selected, plus once more if it is the current page.
   */
  lemma TargetsExactly(statuses: Registry, nodes: NodeStore, selection: seq<PageId>, currentPage: PageId, id: PageId)
    ensures var r := Targets(statuses, nodes, selection, currentPage);
      && multiset(r)[id] == (if id in statuses then 0 else
           (if IsPage(nodes, id) then multiset(selection)[id] else 0) + (if id == currentPage then 1 else 0))
      && (id in r <==> id !in statuses && ((id in selection && IsPage(nodes, id)) || id == currentPage))
  {
    UntaggedSelectedPagesCount(statuses, nodes, selection, id);
    var r := Targets(statuses, nodes, selection, currentPage);
    assert id in r <==> multiset(r)[id] > 0;
    assert id in selection <==> multiset(selection)[id] > 0;
  }
}
