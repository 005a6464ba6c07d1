/**
 * The sync controller: the plug-in's handlers. `Plugin` holds what the
 * handlers read and write: the value stored under `pageStatuses`, the
 * host's node store, selection and current page, and the messages posted
 * to the UI. The batch update is specified by `UpdateOutcome`, a function
 * of the state before the command.
 */
module SyncController {
  import opened Wrappers
  import opened LabelCodec
  import opened StatusStore
  import opened PageRenamer
  import opened SelectionTracker

  const UPDATE_PAGE_STATUS: string := "update-page-status"
  const GET_CURRENT_PAGE_STATUS: string := "get-current-page-status"

  /** A command from the UI: its `type` and its `status` field (empty when absent). */
  datatype UiMessage = UiMessage(kind: string, status: string)

  /** The fields of `selection-changed` and `current-page-status`. */
  datatype Report = Report(status: string, selectedPages: nat, hasUnassignedPages: bool)

  /** A message posted to the UI. */
  datatype OutMessage =
    | SelectionChanged(report: Report)
    | StatusUpdated(pageId: PageId, status: string, affectedPages: nat, hasUnassignedPages: bool)
    | CurrentPageStatus(report: Report)

  /** The new state of an `update-page-status` command. */
  datatype Outcome = Outcome(registry: Registry, nodes: NodeStore, message: OutMessage)

  /**
   * What `notifySelectionChange` and `get-current-page-status` report: the
   * current page's stored status and the number of targets, with the
   * availability flag set exactly when there is a target.
   */
  function StatusReport(statuses: Registry, nodes: NodeStore, selection: seq<PageId>, currentPage: PageId): (r: Report)
    ensures r.selectedPages == |Targets(statuses, nodes, selection, currentPage)|
    ensures r.hasUnassignedPages <==> r.selectedPages > 0
    ensures currentPage in statuses ==> r.status == statuses[currentPage]
    ensures currentPage !in statuses ==> r.status == "" && r.selectedPages >= 1
  {
    var targets := Targets(statuses, nodes, selection, currentPage);
    Report(StoredStatus(statuses, currentPage), |targets|, |targets| > 0)
  }

  /** The registry after `statuses[id] = { status }` for each id of `ids` in turn. */
  function AssignAll(statuses: Registry, ids: seq<PageId>, status: string): (r: Registry)
    ensures forall id :: id in r <==> id in statuses || id in ids
    ensures forall id :: id in ids ==> r[id] == status
    ensures forall id :: id in statuses && id !in ids ==> r[id] == statuses[id]
  {
    if ids == [] then statuses
    else AssignAll(statuses, ids[..|ids| - 1], status)[ids[|ids| - 1] := status]
  }

  /** The node store after `updatePageNameWithStatus(id, status)` for each id of `ids` in turn. */
  function RenameAll(nodes: NodeStore, ids: seq<PageId>, status: string): (r: NodeStore)
    ensures r.Keys == nodes.Keys
    ensures forall id :: id in nodes ==> r[id].kind == nodes[id].kind
    ensures forall id :: id in nodes && id !in ids ==> r[id] == nodes[id]
  {
    if ids == [] then nodes
    else RenameOne(RenameAll(nodes, ids[..|ids| - 1], status), ids[|ids| - 1], status)
  }

  /**
   * The batch of `update-page-status`: with a non-empty status, each target
   * gets a registry entry and is renamed; with the empty status nothing is
   * written or renamed. The result message carries the current page's
   * status read back with `GetStatusSafely` and the number of targets.
   */
  function UpdateOutcome(statuses: Registry, nodes: NodeStore, selection: seq<PageId>, currentPage: PageId, status: string): (o: Outcome)
    ensures var targets := Targets(statuses, nodes, selection, currentPage);
      && (status == "" ==> o.registry == statuses && o.nodes == nodes)
      && (status != "" ==>
            && (forall id :: id in o.registry <==> id in statuses || id in targets)
            && (forall id :: id in targets ==> o.registry[id] == status)
            && (forall id :: id in statuses ==> o.registry[id] == statuses[id]))
      && o.nodes.Keys == nodes.Keys
      && (forall id :: id in nodes && id !in targets ==> o.nodes[id] == nodes[id])
      && o.message.StatusUpdated?
      && o.message.pageId == currentPage
      && o.message.affectedPages == |targets|
      && !o.message.hasUnassignedPages
  {
    var targets := Targets(statuses, nodes, selection, currentPage);
    var registry := if status == "" then statuses else AssignAll(statuses, targets, status);
    var renamed := if status == "" then nodes else RenameAll(nodes, targets, status);
    Outcome(registry, renamed, StatusUpdated(currentPage, GetStatusSafely(Some(registry), currentPage), |targets|, false))
  }

  /**
   * The status an `update-page-status` result reports: the current page's
   * previous status when it had an entry (it is then never a target), and
   * otherwise the status just applied (empty for the empty command); the
   * empty id always reads as empty.
   */
  lemma UpdateReportsCurrentStatus(statuses: Registry, nodes: NodeStore, selection: seq<PageId>, currentPage: PageId, status: string)
    ensures UpdateOutcome(statuses, nodes, selection, currentPage, status).message.status ==
      if currentPage == "" then ""
      else if currentPage in statuses then statuses[currentPage]
      else status
  {
    var targets := Targets(statuses, nodes, selection, currentPage);
    assert currentPage !in statuses ==> currentPage in targets;
  }

  /** With a known status, every PAGE target's new name begins with that status's indicator. */
  lemma {:induction false} RenameAllPrefixesIndicator(nodes: NodeStore, ids: seq<PageId>, st: Status)
    ensures var r := RenameAll(nodes, ids, st.Key());
      forall id :: id in ids && IsPage(nodes, id) ==>
        |st.Indicator()| <= |r[id].name| && r[id].name[..|st.Indicator()|] == st.Indicator()
  {
    if ids != [] {
      var init, last := ids[..|ids| - 1], ids[|ids| - 1];
      RenameAllPrefixesIndicator(nodes, init, st);
      var before := RenameAll(nodes, init, st.Key());
      var r := RenameAll(nodes, ids, st.Key());
      assert r == RenameOne(before, last, st.Key());
      forall id | id in ids && IsPage(nodes, id)
        ensures |st.Indicator()| <= |r[id].name| && r[id].name[..|st.Indicator()|] == st.Indicator()
      {
        if id == last {
          assert IsPage(before, id);
          KeysRoundTrip(st);
          assert r[id].name == st.Indicator() + CleanPageName(before[id].name);
        } else {
          assert id in init;
        }
      }
    }
  }

  /**
   * For Approved, Section Title and Sub Category, every PAGE target ends
   * up named the indicator followed by its cleaned original name, however
   * often it occurs among the targets.
   */
  lemma {:induction false} RenameAllBmp(nodes: NodeStore, ids: seq<PageId>, st: Status)
    requires !st.IsAstral()
    ensures var r := RenameAll(nodes, ids, st.Key());
      forall id :: id in ids && IsPage(nodes, id) ==> r[id].name == RenamedName(nodes[id].name, st.Key())
  {
    if ids != [] {
      var init, last := ids[..|ids| - 1], ids[|ids| - 1];
      RenameAllBmp(nodes, init, st);
      var before := RenameAll(nodes, init, st.Key());
      var r := RenameAll(nodes, ids, st.Key());
      assert r == RenameOne(before, last, st.Key());
      forall id | id in ids && IsPage(nodes, id)
        ensures r[id].name == RenamedName(nodes[id].name, st.Key())
      {
        if id == last {
          assert IsPage(before, id);
          if id in init {
            RenameRoundTripBmp(nodes[id].name, st);
          }
        } else {
          assert id in init;
        }
      }
    }
  }

  /** Without repeated targets, every PAGE target is renamed exactly once, whatever the status. */
  lemma {:induction false} RenameAllDistinct(nodes: NodeStore, ids: seq<PageId>, status: string)
    requires forall i, j :: 0 <= i < j < |ids| ==> ids[i] != ids[j]
    ensures var r := RenameAll(nodes, ids, status);
      forall id :: id in ids && IsPage(nodes, id) ==> r[id].name == RenamedName(nodes[id].name, status)
  {
    if ids != [] {
      var init, last := ids[..|ids| - 1], ids[|ids| - 1];
      RenameAllDistinct(nodes, init, status);
      var before := RenameAll(nodes, init, status);
      var r := RenameAll(nodes, ids, status);
      assert r == RenameOne(before, last, status);
      assert last !in init;
      forall id | id in ids && IsPage(nodes, id)
        ensures r[id].name == RenamedName(nodes[id].name, status)
      {
        if id != last {
          assert id in init;
        }
      }
    }
  }

  /** `UpdateOutcome` spelled out for its targets. */
  lemma UpdateOutcomeUnfolds(statuses: Registry, nodes: NodeStore, selection: seq<PageId>, currentPage: PageId, status: string, targets: seq<PageId>)
    requires targets == Targets(statuses, nodes, selection, currentPage)
    ensures var registry := if status == "" then statuses else AssignAll(statuses, targets, status);
      UpdateOutcome(statuses, nodes, selection, currentPage, status) ==
        Outcome(registry, if status == "" then nodes else RenameAll(nodes, targets, status),
                StatusUpdated(currentPage, GetStatusSafely(Some(registry), currentPage), |targets|, false))
  {
  }

  /** One more step of the registry batch. */
  lemma AssignAllStep(statuses: Registry, ids: seq<PageId>, i: nat, status: string)
    requires i < |ids|
    ensures AssignAll(statuses, ids[..i + 1], status) == AssignAll(statuses, ids[..i], status)[ids[i] := status]
  {
    assert ids[..i + 1][..i] == ids[..i];
  }

  /** One more step of the renaming batch. */
  lemma RenameAllStep(nodes: NodeStore, ids: seq<PageId>, i: nat, status: string)
    requires i < |ids|
    ensures RenameAll(nodes, ids[..i + 1], status) == RenameOne(RenameAll(nodes, ids[..i], status), ids[i], status)
  {
    assert ids[..i + 1][..i] == ids[..i];
  }

  class Plugin {
    /** The value stored under the `pageStatuses` key; None when nothing (a falsy value) is stored. */
    var storage: Option<Registry>
    /** Every registry written to the `pageStatuses` key, oldest first. */
    var writes: seq<Registry>
    /** The host document. */
    var nodes: NodeStore
    /** The ids of the current page's selection, in selection order. */
    var selection: seq<PageId>
    /** The id of the current page. */
    var currentPage: PageId
    /** Every message posted to the UI, oldest first. */
    var outbox: seq<OutMessage>

    /** `await figma.clientStorage.getAsync('pageStatuses') || {}`. */
    function Statuses(): (r: Registry)
      reads this
      ensures storage.Some? ==> r == storage.value
      ensures storage.None? ==> r == map[]
    {
      storage.GetOr(map[])
    }

    /** Plug-in start-up: an absent registry is initialised to the empty one. */
    constructor (stored: Option<Registry>, document: NodeStore, selected: seq<PageId>, current: PageId)
      ensures storage == Some(stored.GetOr(map[]))
      ensures writes == if stored.None? then [map[]] else []
      ensures nodes == document && selection == selected && currentPage == current
      ensures outbox == []
    {
      nodes, selection, currentPage, outbox := document, selected, current, [];
      storage, writes := stored, [];
      if stored.None? {
        storage, writes := Some(map[]), [map[]];
      }
    }

    /** Writes a whole registry to the `pageStatuses` key. */
    method Save(statuses: Registry)
      modifies this`storage, this`writes
      ensures storage == Some(statuses) && writes == old(writes) + [statuses]
    {
      storage := Some(statuses);
      writes := writes + [statuses];
    }

    /** `updatePageNameWithStatus(pageId, status)`. */
    method UpdatePageNameWithStatus(pageId: PageId, status: string)
      modifies this`nodes
      ensures nodes == RenameOne(old(nodes), pageId, status)
    {
      if pageId !in nodes || nodes[pageId].kind != PAGE {
        return;
      }
      var originalName := CleanPageName(nodes[pageId].name);
      if status == "" {
        nodes := nodes[pageId := nodes[pageId].(name := originalName)];
        return;
      }
      var indicator := IndicatorFor(status);
      nodes := nodes[pageId := nodes[pageId].(name := indicator + originalName)];
    }

    /** `notifySelectionChange`, run on selection and current-page changes. */
    method NotifySelectionChange()
      modifies this`outbox
      ensures outbox == old(outbox) + [SelectionChanged(StatusReport(Statuses(), nodes, selection, currentPage))]
    {
      var selectedPages := Targets(Statuses(), nodes, selection, currentPage);
      var statuses := Statuses();
      var pageStatus := StoredStatus(statuses, currentPage);
      outbox := outbox + [SelectionChanged(Report(pageStatus, |selectedPages|, |selectedPages| > 0))];
    }

    /** The `get-current-page-status` branch of the UI message handler. */
    method GetCurrentPageStatus()
      modifies this`outbox
      ensures outbox == old(outbox) + [CurrentPageStatus(StatusReport(Statuses(), nodes, selection, currentPage))]
    {
      var pageId := currentPage;
      var statuses := Statuses();
      var pageStatus := StoredStatus(statuses, pageId);
      var selectedPages := Targets(Statuses(), nodes, selection, currentPage);
      outbox := outbox + [CurrentPageStatus(Report(pageStatus, |selectedPages|, |selectedPages| > 0))];
    }

    /** The `update-page-status` branch of the UI message handler. */
    method UpdatePageStatus(status: string)
      modifies this`nodes, this`storage, this`writes, this`outbox
      ensures var o := UpdateOutcome(old(Statuses()), old(nodes), selection, currentPage, status);
        && storage == Some(o.registry) && writes == old(writes) + [o.registry]
        && nodes == o.nodes
        && outbox == old(outbox) + [o.message]
    {
      var selectedPages := Targets(Statuses(), nodes, selection, currentPage);
      var statuses := Statuses();
      ghost var statuses0, nodes0 := statuses, nodes;
      statuses := ApplyToPages(selectedPages, statuses, status);
      Save(statuses);
      outbox := outbox + [StatusUpdated(currentPage, GetStatusSafely(Some(statuses), currentPage), |selectedPages|, false)];
      UpdateOutcomeUnfolds(statuses0, nodes0, selection, currentPage, status, selectedPages);
    }

    /**
     * The loop of `update-page-status`: for each target in turn, when the
     * status is non-empty, record it in `statuses` and rename the page.
     */
    method ApplyToPages(targets: seq<PageId>, statuses: Registry, status: string) returns (updated: Registry)
      modifies this`nodes
      ensures updated == if status == "" then statuses else AssignAll(statuses, targets, status)
      ensures nodes == if status == "" then old(nodes) else RenameAll(old(nodes), targets, status)
    {
      updated := statuses;
      var i := 0;
      while i < |targets|
        invariant 0 <= i <= |targets|
        invariant status == "" ==> updated == statuses && nodes == old(nodes)
        invariant status != "" ==> updated == AssignAll(statuses, targets[..i], status)
        invariant status != "" ==> nodes == RenameAll(old(nodes), targets[..i], status)
      {
        var id := targets[i];
        if status != "" {
          updated := updated[id := status];
          UpdatePageNameWithStatus(id, status);
          AssignAllStep(statuses, targets, i, status);
          RenameAllStep(old(nodes), targets, i, status);
        }
        i := i + 1;
      }
      assert targets[..i] == targets;
    }

    /** `figma.ui.onmessage`: dispatch on the message type; any other type is ignored. */
    method OnMessage(msg: UiMessage)
      modifies this`nodes, this`storage, this`writes, this`outbox
      ensures msg.kind == UPDATE_PAGE_STATUS ==>
        var o := UpdateOutcome(old(Statuses()), old(nodes), selection, currentPage, msg.status);
        && storage == Some(o.registry) && writes == old(writes) + [o.registry]
        && nodes == o.nodes
        && outbox == old(outbox) + [o.message]
      ensures msg.kind == GET_CURRENT_PAGE_STATUS ==>
        && storage == old(storage) && writes == old(writes) && nodes == old(nodes)
        && outbox == old(outbox) + [CurrentPageStatus(StatusReport(Statuses(), nodes, selection, currentPage))]
      ensures msg.kind != UPDATE_PAGE_STATUS && msg.kind != GET_CURRENT_PAGE_STATUS ==>
        storage == old(storage) && writes == old(writes) && nodes == old(nodes) && outbox == old(outbox)
    {
      if msg.kind == UPDATE_PAGE_STATUS {
        UpdatePageStatus(msg.status);
      }
      if msg.kind == GET_CURRENT_PAGE_STATUS {
        GetCurrentPageStatus();
      }
    }
  }
}
