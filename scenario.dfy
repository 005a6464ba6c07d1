/**
 * A worked session against the handlers: a fresh page called "Homepage"
 * is tagged Complete; afterwards the empty status is sent and the
 * selection changes. Everything asserted follows from the handlers'
 * contracts.
 */
module Scenario {
  import opened Wrappers
  import opened LabelCodec
  import opened StatusStore
  import opened PageRenamer
  import opened SelectionTracker
  import opened SyncController

  /** "Homepage" */
  const HOME: Text := [0x48, 0x6F, 0x6D, 0x65, 0x70, 0x61, 0x67, 0x65]

  /** "Homepage" carries no indicator and no surrounding whitespace. */
  lemma HomeIsClean()
    ensures CleanPageName(HOME) == HOME
  {
    assert !IsWhiteSpace(HOME[0]) && !IsWhiteSpace(HOME[|HOME| - 1]);
    SkipFromUnique(HOME, 0, 0);
    assert TrimStart(HOME) == HOME;
    CleanWithoutIndicator(HOME);
    TrimCharacterised([], HOME, []);
    assert [] + HOME + [] == HOME;
  }

  /** Tagging an untagged current page Complete with nothing selected. */
  lemma TagHomepage()
    ensures UpdateOutcome(map[], map["P1" := Node(PAGE, HOME)], [], "P1", "Complete")
      == Outcome(map["P1" := "Complete"], map["P1" := Node(PAGE, Complete.Indicator() + HOME)],
                 StatusUpdated("P1", "Complete", 1, false))
  {
    var nodes := map["P1" := Node(PAGE, HOME)];
    var registry := map["P1" := "Complete"];
    var targets := ["P1"];
    assert Targets(map[], nodes, [], "P1") == targets;
    UpdateOutcomeUnfolds(map[], nodes, [], "P1", "Complete", targets);
    assert targets[..0] == [];
    assert AssignAll(map[], targets, "Complete") == registry;
    assert GetStatusSafely(Some(registry), "P1") == "Complete";
    assert RenameAll(nodes, targets, "Complete") == map["P1" := Node(PAGE, Complete.Indicator() + HOME)] by {
      assert RenameAll(nodes, targets, "Complete") == RenameOne(nodes, "P1", "Complete");
      HomeIsClean();
      KeysRoundTrip(Complete);
      assert RenamedName(HOME, "Complete") == Complete.Indicator() + HOME;
    }
  }

  /** Sending the empty status once the current page is tagged and nothing is selected. */
  lemma EmptyStatusOnTaggedPage(tagged: Node)
    ensures UpdateOutcome(map["P1" := "Complete"], map["P1" := tagged], [], "P1", "")
      == Outcome(map["P1" := "Complete"], map["P1" := tagged], StatusUpdated("P1", "Complete", 0, false))
  {
    assert Targets(map["P1" := "Complete"], map["P1" := tagged], [], "P1") == [];
  }

  /** The selection report once the current page is tagged and nothing is selected. */
  lemma ReportOnTaggedPage(tagged: Node)
    ensures StatusReport(map["P1" := "Complete"], map["P1" := tagged], [], "P1") == Report("Complete", 0, false)
  {
    assert Targets(map["P1" := "Complete"], map["P1" := tagged], [], "P1") == [];
  }

  /** A fresh page called "Homepage" is tagged Complete. */
  method TagSession()
  {
    var plugin := new Plugin(None, map["P1" := Node(PAGE, HOME)], [], "P1");
    assert plugin.Statuses() == map[];
    TagHomepage();
    plugin.UpdatePageStatus("Complete");
    assert plugin.Statuses() == map["P1" := "Complete"];
    assert plugin.nodes == map["P1" := Node(PAGE, Complete.Indicator() + HOME)];
    assert plugin.outbox == [StatusUpdated("P1", "Complete", 1, false)];
  }

  /**
   * The empty status sent for that page afterwards removes nothing: the
   * page is tagged, so it is not even a target.
   */
  method EmptyStatusSession()
  {
    var tagged := Node(PAGE, Complete.Indicator() + HOME);
    var plugin := new Plugin(Some(map["P1" := "Complete"]), map["P1" := tagged], [], "P1");
    EmptyStatusOnTaggedPage(tagged);
    assert UPDATE_PAGE_STATUS[0] != GET_CURRENT_PAGE_STATUS[0];
    plugin.OnMessage(UiMessage(UPDATE_PAGE_STATUS, ""));
    assert plugin.Statuses() == map["P1" := "Complete"];
    assert plugin.nodes == map["P1" := tagged];
    assert plugin.outbox == [StatusUpdated("P1", "Complete", 0, false)];
    assert plugin.writes == [map["P1" := "Complete"]];
    ReportOnTaggedPage(tagged);
    plugin.NotifySelectionChange();
    assert plugin.outbox[1] == SelectionChanged(Report("Complete", 0, false));
  }
}
