/**
 * The page renamer: the new display name `updatePageNameWithStatus` gives a
 * page, and its effect on the host's node store.
 */
module PageRenamer {
  import opened LabelCodec
  import opened StatusStore

  /** The node type the renamer accepts. */
  const PAGE: string := "PAGE"

  /** A host node, as far as the plug-in looks at it: its type tag and its display name. */
  datatype Node = Node(kind: string, name: Text)

  /** The host document, as `figma.getNodeById` resolves it. */
  type NodeStore = map<PageId, Node>

  /** `id` resolves to a node of type PAGE. */
  predicate IsPage(nodes: NodeStore, id: PageId) {
    id in nodes && nodes[id].kind == PAGE
  }

  /**
   * The name a page called `name` gets for `status`: the cleaned name, with
   * the indicator of `status` in front. The empty status and an unknown
   * status both have no indicator, so both only clean the name.
   */
  function RenamedName(name: Text, status: string): (r: Text)
    ensures r == IndicatorFor(status) + CleanPageName(name)
  {
    if status == "" then CleanPageName(name)
    else IndicatorFor(status) + CleanPageName(name)
  }

  /**
   * For Approved, Section Title and Sub Category, cleaning a renamed page
   * gives back the cleaned original name, and renaming twice is renaming
   * once.
   */
  lemma RenameRoundTripBmp(name: Text, st: Status)
    requires !st.IsAstral()
    ensures CleanPageName(RenamedName(name, st.Key())) == CleanPageName(name)
    ensures RenamedName(RenamedName(name, st.Key()), st.Key()) == RenamedName(name, st.Key())
  {
    CleanRemovesBmpIndicator(st, CleanPageName(name));
    TrimIdempotent(StripIndicator(name));
  }

  /**
   * For Complete, In Progress, Draft and Under Review, cleaning a renamed
   * page does not give back the cleaned original name, and renaming twice
   * is not renaming once: the emoji's low surrogate is left behind.
   */
  lemma RenameRoundTripFailsAstral(name: Text, st: Status)
    requires st.IsAstral()
    ensures CleanPageName(RenamedName(name, st.Key())) != CleanPageName(name)
    ensures RenamedName(RenamedName(name, st.Key()), st.Key()) != RenamedName(name, st.Key())
  {
    var base := CleanPageName(name);
    CleanKeepsLowSurrogate(st, base);
    TrimIdempotent(StripIndicator(name));
  }

  /**
   * `updatePageNameWithStatus(id, status)` on a node store: a missing or
   * non-PAGE node is left alone; otherwise only that node's name changes,
   * to `RenamedName`.
   */
  function RenameOne(nodes: NodeStore, id: PageId, status: string): (r: NodeStore)
    ensures r.Keys == nodes.Keys
    ensures forall other :: other in nodes && other != id ==> r[other] == nodes[other]
    ensures !IsPage(nodes, id) ==> r == nodes
    ensures IsPage(nodes, id) ==> r[id] == Node(PAGE, RenamedName(nodes[id].name, status))
  {
    if IsPage(nodes, id) then nodes[id := nodes[id].(name := RenamedName(nodes[id].name, status))]
    else nodes
  }
}
