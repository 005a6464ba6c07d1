# figmaTag status labels, modelled in Dafny

This project models the status-label engine of the figmaTag Figma plug-in
(`code.js`). The plug-in tags pages with a status. It keeps a registry from
page id to `{ status }` under the client-storage key `pageStatuses`, and it
shows the status in the page's name as a fixed indicator prefix (a bullet
and an emoji, or a hook arrow). The model covers:

- the indicator table;
- `cleanPageName`, which strips one leading indicator with a regular
  expression and trims the result;
- the safe registry read `getStatusSafely`;
- the page renamer `updatePageNameWithStatus`;
- target resolution `getSelectedPagesWithoutStatus`;
- the handlers: start-up seeding of the registry, `notifySelectionChange`,
  and the `update-page-status` and `get-current-page-status` branches of
  the UI message handler.

Modules:

- `LabelCodec` (`label_codec.dfy`): the indicator table, JavaScript
  whitespace, `trim`, the regular expression as a left-to-right parse, and
  `cleanPageName`.
- `StatusStore` (`status_store.dfy`): the registry and the two ways the
  code reads a page's status.
- `PageRenamer` (`page_renamer.dfy`): the new name of a page, and one
  rename applied to the node store.
- `SelectionTracker` (`selection_tracker.dfy`): the target list.
- `SyncController` (`sync_controller.dfy`): the class `Plugin`, whose fields
  are the stored registry, the log of storage writes, the node store, the
  selection, the current page and the messages posted to the UI. Its
  methods are the handlers. `UpdateOutcome` is the function the batch
  update is proved against.
- `Scenario` (`scenario.dfy`): a worked session on a page called
  "Homepage".
- `Wrappers` (`wrappers.dfy`): `Option`.

Page names are sequences of UTF-16 code units (`CodeUnit`, 0 to 0xFFFF),
as JavaScript strings are. The regular expression
`/^\s*(?:•\s*[🟢🟡🛑👀✅]|↪)\s*/` has no `u` flag, so its bracket class
matches one code unit. That unit is one of:

- the high surrogate 0xD83D, which 🟢, 🟡, 🛑 and 👀 all share;
- one of those emoji's four low surrogates;
- ✅ (0x2705).

For Complete, In Progress, Draft and Under Review the replace therefore
removes only the emoji's high surrogate. The low surrogate stays at the
front of the cleaned name. `CleanKeepsLowSurrogate` and
`RenameRoundTripFailsAstral` state this as the code behaves.
`CleanRemovesBmpIndicator` and `RenameRoundTripBmp` state the clean round
trip for the other three statuses.

The regular expression never needs to backtrack: neither glyph and no
member of the class is whitespace. `MatchEnd` is therefore a
deterministic parse. `MatchesPattern` is a separate declarative reading of
the pattern. `MatchEndSound` and `MatchEndLongest` prove that the parse
finds a match, and that no prefix of the name matches beyond it.

Behaviours of the code that the model keeps:

- Cleaning is not idempotent: one call removes one indicator
  (`CleanIsNotIdempotent`).
- Targets are not de-duplicated. An untagged PAGE that is selected once
  and is also the current page is a target twice. A tagged page is never
  a target (`TargetsExactly`).
- The empty status removes nothing: the loop skips every target
  (`UpdateOutcome`, `EmptyStatusOnTaggedPage`).
- `hasUnassignedPages` is always `false` after an update.
- No handler catches an error, so there is no fail-open path.

## Model

| member | source | states |
|---|---|---|
| LabelCodec.ParseStatus | code.js:4-12 | A string is found exactly when it is one of the seven keys of the table, and then it is found as that key |
| LabelCodec.KeysRoundTrip | code.js:4-12 | Every key of the table is found again by the lookup, and its indicator is non-empty, so the lookup with its empty fallback yields it |
| LabelCodec.IndicatorFor | code.js:49 | A known status yields its table indicator; any other string yields the empty prefix |
| LabelCodec.Trim | code.js:24 | The result of `trim` has no whitespace at either end |
| LabelCodec.TrimCharacterised | code.js:24 | `trim` of whitespace, then a text with no whitespace at its ends, then whitespace, is that text |
| LabelCodec.TrimIdempotent | code.js:24 | Trimming twice is trimming once |
| LabelCodec.EmojiClassIsItsCodeUnits | code.js:24 | The bracket class matches exactly the code units written between its brackets |
| LabelCodec.MatchEndSound | code.js:24 | What the parse consumes is a whole match of the anchored pattern |
| LabelCodec.MatchEndLongest | code.js:24 | Every prefix the pattern matches ends no later than the parse; when the parse finds nothing, no prefix matches and the name is left alone |
| LabelCodec.MatchEnd | code.js:24 | The parse of the anchored pattern never runs past the end of the name; `MatchEndSound` and `MatchEndLongest` tie what it finds to the pattern |
| LabelCodec.StripIndicator | code.js:24 | The replace never lengthens the name |
| LabelCodec.StripIndicatorShape | code.js:24 | The replace leaves a suffix of the name; it leaves the whole name exactly when the pattern does not match; after a match the rest does not start with whitespace |
| LabelCodec.CleanPageName | code.js:22-25 | A cleaned name has no leading or trailing whitespace |
| LabelCodec.CleanWithoutIndicator | code.js:22-25 | A name that, after leading whitespace, starts with neither `•` nor `↪` cleans to its trimmed self |
| LabelCodec.CleanRemovesBmpIndicator | code.js:24 | For Approved, Section Title and Sub Category, cleaning the indicator followed by any body gives the trimmed body |
| LabelCodec.CleanKeepsLowSurrogate | code.js:24 | For Complete, In Progress, Draft and Under Review, cleaning the indicator followed by a body leaves the emoji's low surrogate in front, and the result differs from the trimmed body |
| LabelCodec.CleanIsNotIdempotent | code.js:24 | "↪ ↪ x" cleans to "↪ x", which cleans to "x": only one indicator is removed per call |
| StatusStore.GetStatusSafely | code.js:28-32 | The read is non-empty exactly when the registry exists, the id is non-empty, the id has an entry and that entry's status is non-empty; it is then that status, and otherwise the empty string |
| StatusStore.StoredStatus | code.js:65 | The report's read of a page's status is the entry's status when there is an entry, and empty otherwise |
| StatusStore.StoredStatusAgreesWithSafeRead | code.js:28-32 | For a non-empty id of a present registry the two reads agree |
| StatusStore.StoredStatusDiffersOnEmptyId | code.js:29 | The two reads differ on an empty id with a stored status, which only the safe read refuses |
| PageRenamer.RenamedName | code.js:40-50 | The new name is the status's indicator (none for the empty or an unknown status) followed by the cleaned old name |
| PageRenamer.RenameOne | code.js:35-51 | A missing or non-PAGE node leaves the store unchanged; otherwise only that node's name changes, to the renamed name, and its type is kept |
| PageRenamer.RenameRoundTripBmp | code.js:40-50 | For Approved, Section Title and Sub Category, cleaning a renamed name gives the cleaned old name, and renaming twice is renaming once |
| PageRenamer.RenameRoundTripFailsAstral | code.js:40-50 | For Complete, In Progress, Draft and Under Review, cleaning a renamed name does not give the cleaned old name, and renaming twice differs from renaming once |
| SelectionTracker.UntaggedSelectedPages | code.js:56-57 | Every id kept is a PAGE node without a registry entry, and no more ids are kept than selected |
| SelectionTracker.Targets | code.js:54-59 | Every target lacks a registry entry, and an untagged current page is always a target |
| SelectionTracker.UntaggedSelectedPagesAppend | code.js:57 | The filter keeps selection order: filtering a concatenation concatenates the filtered parts |
| SelectionTracker.UntaggedSelectedPagesCount | code.js:57 | Each qualifying id is kept as often as it is selected, and every other id is dropped |
| SelectionTracker.TargetsExactly | code.js:54-59 | An id is a target exactly when it has no entry and is a selected PAGE or the current page; it occurs as often as it is selected, plus once if it is the current page |
| SyncController.StatusReport | code.js:62-73 | The report counts the targets; its flag is set exactly when there is a target; a tagged current page reports its stored status; an untagged one reports the empty status and at least one target |
| SyncController.AssignAll | code.js:82-87 | After the loop every target maps to the status, every other entry is unchanged, and no other key appears |
| SyncController.RenameAll | code.js:82-90 | The batch of renames keeps every node and its type, and leaves every non-target node unchanged |
| SyncController.RenameAllPrefixesIndicator | code.js:82-90 | With a known status, every PAGE target's new name begins with that status's indicator |
| SyncController.RenameAllBmp | code.js:82-90 | For Approved, Section Title and Sub Category, every PAGE target ends up renamed once, however often it is a target |
| SyncController.RenameAllDistinct | code.js:82-90 | With no repeated targets, every PAGE target ends up renamed once, whatever the status |
| SyncController.UpdateOutcome | code.js:77-103 | With the empty status, registry and names are unchanged; otherwise every target maps to the status and every existing entry is unchanged; non-targets keep their nodes; the message names the current page, counts the targets and clears the flag |
| SyncController.UpdateReportsCurrentStatus | code.js:96-102 | The reported status is the current page's old status when it had one, otherwise the status just applied, and always empty for the empty id |
| SyncController.Plugin.Statuses | code.js:55 | A missing registry reads as the empty one |
| SyncController.Plugin.constructor | code.js:15-19 | An absent registry is replaced by the empty one with a single write; a present one is kept and nothing is written |
| SyncController.Plugin.Save | code.js:93 | The whole registry is stored and the write is logged once |
| SyncController.Plugin.UpdatePageNameWithStatus | code.js:35-51 | The node store becomes the single rename of that page |
| SyncController.Plugin.NotifySelectionChange | code.js:62-73 | Exactly one `selection-changed` message carrying the status report is posted; nothing else changes |
| SyncController.Plugin.GetCurrentPageStatus | code.js:105-117 | Exactly one `current-page-status` message carrying the status report is posted; nothing else changes |
| SyncController.Plugin.ApplyToPages | code.js:82-90 | The loop leaves registry and names alone for the empty status, and otherwise produces the batch assignment and the batch rename of the targets |
| SyncController.Plugin.UpdatePageStatus | code.js:77-103 | Storage, names and the outbox become those of `UpdateOutcome` of the old state; storage is written exactly once |
| SyncController.Plugin.OnMessage | code.js:76-118 | `update-page-status` runs the batch update, `get-current-page-status` posts the report, and any other type changes nothing |
| Scenario.TagHomepage | code.js:77-103 | Tagging an untagged "Homepage" Complete, with nothing selected, writes one entry, prefixes the Complete indicator and reports one affected page |
| Scenario.EmptyStatusOnTaggedPage | code.js:83 | The empty status sent for a tagged current page changes nothing and reports its old status with no affected page |
| Scenario.ReportOnTaggedPage | code.js:62-73 | A tagged current page with nothing selected reports its status, no targets and a cleared flag |

## Left out

- `figma.showUI` and the HTML UI (code.js:1) are presentation only.
- `figma.ui.postMessage` is modelled as appending to `outbox`. Delivery to the UI is not modelled.
- The `figma.on` registrations (code.js:121, 124) are callback wiring. The handlers are methods that a caller invokes.
- `clientStorage.getAsync` and `setAsync` are modelled as a synchronous field. Promise semantics, suspension between awaits and interleaving of handlers are not modelled. For example, a node deleted between two renames of one batch is not modelled.
- A rejected storage promise is not modelled: the code never catches one.
- Stored values are `None` (falsy) or a registry. A registry entry is always a record, and only its `status` field is kept, with the empty string for a falsy status. A stored value of any other shape is not modelled.
- `msg.status` is a string, with the empty string for an absent or falsy status. Non-string statuses are not modelled.
- `STATUS_INDICATORS[status]` is restricted to the seven literal keys. Keys inherited from the object prototype (such as `constructor`) are not modelled.
- The node store is a generic map from id to type and name. Host facts, such as a selection never holding PAGE nodes or the current page always being a PAGE, are not assumed.
- Id lookups are exact key lookups. JavaScript's coercion of property names is not modelled.
