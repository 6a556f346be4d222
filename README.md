# Entra ID change detection: a Dafny model

This project models the change-detection pipeline of a monitor for Microsoft
Entra ID Conditional Access policies, and proves properties of that model.

- **Backend differ.** `diff_policies` indexes the previous and the fetched list
  of policy records by `id`. It reports created, modified and deleted
  policies as Hebrew one-line messages. `check_for_changes` decides whether
  a fetched configuration is discarded or saved as a new snapshot (module
  `Monitor`).
- **Diff viewer.** The viewer collects the changed rows of the rendered
  side-by-side diff and builds one minimap marker per row. It keeps a cursor
  (`currentChangeIndex`) that the previous/next buttons and the minimap move
  (module `JsonDiffViewer`, class `DiffViewer`). The minimap projects each
  marker to a percentage of the document height (module `DiffMinimap`).
- **Snapshot detail panel.** The panel sorts each change line into
  created / modified / deleted / info by keyword. It shows a diff button,
  the initial-configuration explanation, or the list of changes. It exists
  in two versions:
  - `SnapshotDetail.jsx` (module `SnapshotDetailJsx`);
  - `SnapshotDetail.js` (module `SnapshotDetailJs`), which also rewrites each
    line's prefix with a case-insensitive global replace.

  What the two versions share is in module `Snapshots`.

Supporting modules:
- `Util`: `Option`, `IndexOf` and distinctness.
- `Json`: JSON values, with objects as maps.
- `Text`: ASCII `toLowerCase`, `includes`, `split('\n')`, and the decimal
  rendering of integers and its parser.

Python's `None` is `JNull`. Comparing two values with
`json.dumps(..., sort_keys=True)` is structural equality on `Json`, because
objects are maps. A Python dict keyed by id is an insertion-ordered sequence
of entries with distinct keys. `d[k] = v` keeps an existing key in its place
and appends a new one. Keys are compared as Python compares them: a boolean
id is the same key as the integer 1 or 0 (`DictKey`).

The diff is split into a specification and the loops that follow it:
- `PolicyChanges` is a sequence of `Created` / `Modified` / `Deleted` events.
  `Message` renders each event as its line.
- The two loops of `diff_policies` are methods proved equal to that
  rendering.
- Everything else about the report is proved about `PolicyChanges`:
  - which ids are reported, and under which name;
  - order and distinctness;
  - that identical maps report nothing.

The viewer is a class whose fields are the component's state. Its methods
keep `Valid()`:
- the cursor is -1 or an index into the rows;
- the rows are distinct and sorted by offset;
- there is one marker per row.

Behaviours of the code that the model keeps as they are:
- **Rows are replaced only when the count changes.** The viewer replaces
  its rows, its markers and its cursor only when a scan finds a different
  number of rows. A scan that finds other rows of the same number leaves the
  old ones in place (see Findings).
- **`null` renders as `"null"`.** A side whose data is `null` shows the text
  `null`, because `JSON.stringify(null)` is the non-empty string `"null"`.
  Only an `undefined` result, or an empty string, becomes `'{}'`
  (`SideText`).
- **Positions are percentages.** The minimap places a marker at
  `lineNumber / totalLines * 100` percent. A row without a line-number cell
  gets line 0, which is placed at the top.
- **Clicking scrolls even to a missing row.** `handleMarkerClick` scrolls to
  the element it is given even when that element is not one of the rows. In
  that case it leaves the cursor where it was.

## Model

| member | source | states |
|---|---|---|
| Util.IndexOf | frontend/src/components/JsonDiffViewer.jsx:79 | `findIndex` with `===`: a found index holds the element, and no earlier position does; `None` exactly when the element is absent |
| Text.Lower | frontend/src/components/SnapshotDetail.jsx:18 | `toLowerCase` keeps the length and lower-cases each ASCII capital in place |
| Text.LowerIdempotent | frontend/src/components/SnapshotDetail.jsx:18 | lower-casing twice is lower-casing once |
| Text.ContainsIff | frontend/src/components/SnapshotDetail.jsx:19 | `includes` holds exactly when the word occurs at some position |
| Text.SplitJoin | frontend/src/components/JsonDiffViewer.jsx:84 | joining the pieces of `split('\n')` gives the text back |
| Text.SplitCount | frontend/src/components/JsonDiffViewer.jsx:84 | `split('\n')` has one more piece than the text has line breaks |
| Text.DecimalRoundTrip | frontend/src/components/DiffMinimap.jsx:20 | the decimal rendering of an integer in a template literal reads back as the same integer |
| Monitor.KeysPut | backend/monitor.py:29-30 | `d[k] = v` leaves the keys as they are when `k` is present and appends `k` otherwise; keys stay distinct |
| Monitor.LookupPut | backend/monitor.py:29-30 | after `d[k] = v`, `k` looks up `v` and every other key looks up what it did before |
| Monitor.LookupAt | backend/monitor.py:40 | in a dict with distinct keys, each item is what its key looks up |
| Monitor.LookupIndex | backend/monitor.py:40 | a key that looks up a value is the key of an item holding that value |
| Monitor.IndexByIdStep | backend/monitor.py:29-30 | the comprehension's dict is the dict of all records but the last, with `d[id] = last` applied |
| Monitor.IndexByIdKeys | backend/monitor.py:29-30 | the dict's keys are exactly the records' ids, each once; it has no more items than there are records |
| Monitor.IndexByIdOrder | backend/monitor.py:29-30 | the keys come in the order in which their ids first occur: a repeated id keeps its first position |
| Monitor.IndexByIdLastValue | backend/monitor.py:29-30 | a repeated id keeps the record of its last occurrence |
| Monitor.IndexByIdPair | backend/monitor.py:29-30 | two records with different ids give a dict holding both, in list order |
| Monitor.IndexById | backend/monitor.py:28-33 | the comprehension fails exactly when some record has no usable `id` |
| Monitor.SingleRecord | backend/monitor.py:29-30 | a one-record list gives a one-item dict under the record's key |
| Monitor.SingleEntryChanges | backend/monitor.py:36-48 | two one-item dicts under the same key report one modification, under the new record's name, exactly when the records differ, and nothing otherwise |
| Monitor.BooleanAndIntegerIdsShareKey | backend/monitor.py:29-43 | a previous record with id `true` and a fetched record with id `1` are the same dict key, so the records are compared and a single modification line is reported |
| Monitor.MalformedRecordReportsNothing | backend/monitor.py:28-33 | a record without a usable `id` (not a dict, no `id`, unhashable id) in either list makes the result empty: no partial output |
| Monitor.PyStr | backend/monitor.py:38 | a string is shown as itself, `None` as `None`, and an integer as decimal text that reads back as the integer |
| Monitor.DisplayName | backend/monitor.py:38 | a string `displayName` is shown as it is; a record without the field is shown as `Unknown Name` |
| Monitor.InNewEntryChanges | backend/monitor.py:37-43 | an item of the new map reports `Created` exactly when its id is absent from the old map, `Modified` exactly when the old record differs, always under its new record's name |
| Monitor.InOldEntryChanges | backend/monitor.py:47-48 | an item of the old map reports `Deleted` exactly when its id is absent from the new map, under its old record's name |
| Monitor.CreatedOrModifiedSource | backend/monitor.py:36-43 | every change the first loop reports is produced by one item of the new map |
| Monitor.CreatedOrModifiedHas | backend/monitor.py:36-43 | every change an item of the new map produces is reported by the first loop |
| Monitor.InCreatedOrModified | backend/monitor.py:36-43 | a change is in the first loop's output exactly when some item of the new map produces it |
| Monitor.DeletedPoliciesSource | backend/monitor.py:46-48 | every deletion the second loop reports is produced by one item of the old map |
| Monitor.DeletedPoliciesHas | backend/monitor.py:46-48 | every deletion an item of the old map produces is reported by the second loop |
| Monitor.InDeletedPolicies | backend/monitor.py:46-48 | a change is in the second loop's output exactly when some item of the old map produces it |
| Monitor.InPolicyChangesNew | backend/monitor.py:35-48 | a created or modified entry is in the report exactly when an item of the new map produces it |
| Monitor.InPolicyChangesOld | backend/monitor.py:35-48 | a deleted entry is in the report exactly when an item of the old map produces it |
| Monitor.NewEntryReporting | backend/monitor.py:36-43 | names the item of the new map behind a reported creation or modification |
| Monitor.OldEntryReporting | backend/monitor.py:46-48 | names the item of the old map behind a reported deletion |
| Monitor.CreatedIff | backend/monitor.py:36-38 | `Created(k, n)` is reported exactly when `k` is in the new map and not in the old, and `n` is the new record's display name |
| Monitor.ModifiedIff | backend/monitor.py:39-43 | `Modified(k, n)` is reported exactly when `k` is in both maps with different records, and `n` is the new record's display name |
| Monitor.DeletedIff | backend/monitor.py:45-48 | `Deleted(k, n)` is reported exactly when `k` is in the old map and not in the new, and `n` is the old record's display name |
| Monitor.CreatedOrModifiedFrom | backend/monitor.py:36-43 | the first loop reports at most one entry per item, each a creation or modification of a key of the new map |
| Monitor.CreatedOrModifiedOrder | backend/monitor.py:36-43 | the first loop's entries come in new-map key order |
| Monitor.DeletedPoliciesFrom | backend/monitor.py:46-48 | the second loop reports at most one entry per item, each a deletion of an old key that is absent from the new map |
| Monitor.DeletedPoliciesOrder | backend/monitor.py:46-48 | the second loop's entries come in old-map key order |
| Monitor.PolicyChangesShape | backend/monitor.py:35-50 | creations and modifications come first, in new-map order, then deletions in old-map order; there are at most as many entries as distinct new ids plus distinct old ids |
| Monitor.PolicyChangesDistinct | backend/monitor.py:35-50 | no policy id is reported twice |
| Monitor.AgreeingCreatedOrModified | backend/monitor.py:36-43 | when both maps give every id the same record, the first loop reports nothing |
| Monitor.AgreeingDeletedPolicies | backend/monitor.py:46-48 | when both maps give every id the same record, the second loop reports nothing |
| Monitor.PolicyChangesOfAgreeing | backend/monitor.py:35-50 | maps that give every id the same record report nothing, whatever the order of their items |
| Monitor.DiffOfSame | backend/monitor.py:39-43 | `diff_policies(xs, xs) == []` for every existing previous snapshot `xs` |
| Monitor.SwappedPoliciesReportNothing | backend/monitor.py:66-72 | two policies listed in the opposite order: the configurations differ, so the early exit does not apply, yet `diff_policies` reports no change |
| Monitor.CreatedOrModifiedStep | backend/monitor.py:37-43 | one iteration of the first loop appends a creation line when the id is new, a modification line when the record differs, nothing otherwise |
| Monitor.DeletedPoliciesStep | backend/monitor.py:47-48 | one iteration of the second loop appends a deletion line exactly when the id is absent from the new map |
| Monitor.ReportCreatedOrModified | backend/monitor.py:36-43 | the first loop's lines are the messages of the specified created/modified entries |
| Monitor.ReportDeleted | backend/monitor.py:46-48 | the second loop's lines are the messages of the specified deletions |
| Monitor.DiffOutcome | backend/monitor.py:12-50 | the initial-configuration line is the whole result exactly when there is no previous snapshot; non-list input, or a record without a usable `id`, gives no changes |
| Monitor.DiffPolicies | backend/monitor.py:12-50 | `[initial message]` when there is no previous snapshot; `[]` for non-list input or a record without a usable id; otherwise the messages of the specified changes |
| Monitor.CheckForChanges | backend/monitor.py:52-86 | aborts exactly when the fetch returns None; skips exactly when a previous snapshot exists and is equal; otherwise saves one snapshot of the fetched configuration, with the diff's lines (the initial message on a first run) and the explanation of those lines |
| JsonDiffViewer.SideText | frontend/src/components/JsonDiffViewer.jsx:11-12 | each side's text is never empty: the serialisation when it is a non-empty string, `'{}'` otherwise |
| JsonDiffViewer.TotalLines | frontend/src/components/JsonDiffViewer.jsx:84 | `totalLines` is one more than the larger count of line breaks, hence at least 1 |
| JsonDiffViewer.FirstOccurrences | frontend/src/components/JsonDiffViewer.jsx:29-31 | the filter keeps every existing row and only those, each once |
| JsonDiffViewer.Insert | frontend/src/components/JsonDiffViewer.jsx:33 | insertion adds the one row and keeps a sorted sequence sorted |
| JsonDiffViewer.SortByOffset | frontend/src/components/JsonDiffViewer.jsx:33 | the sort keeps the length, draws only rows of its input and orders them by `offsetTop` |
| JsonDiffViewer.InsertPermutes | frontend/src/components/JsonDiffViewer.jsx:33 | insertion adds exactly the inserted row to the multiset |
| JsonDiffViewer.SortPermutes | frontend/src/components/JsonDiffViewer.jsx:33 | the sort is a permutation |
| JsonDiffViewer.InsertDistinct | frontend/src/components/JsonDiffViewer.jsx:33 | inserting a new row keeps the rows distinct |
| JsonDiffViewer.SortDistinct | frontend/src/components/JsonDiffViewer.jsx:33 | sorting keeps the rows distinct |
| JsonDiffViewer.ScanRows | frontend/src/components/JsonDiffViewer.jsx:26-33 | for cells whose rows carry the `hasAdd` that line 43 would compute for them, a scan yields exactly the rows of the added and removed cells, each once, top to bottom |
| JsonDiffViewer.ScanOfOneRow | frontend/src/components/JsonDiffViewer.jsx:26-33 | a scan finding a single added cell yields its row |
| JsonDiffViewer.BuildMarkers | frontend/src/components/JsonDiffViewer.jsx:40-46 | one marker per row in row order: the row itself as target, `add` exactly when the row has an added cell, the parsed line number or 0 |
| JsonDiffViewer.NavigateTarget | frontend/src/components/JsonDiffViewer.jsx:68-75 | navigation moves the cursor by the direction only onto a row index, and keeps the cursor in `[-1, n)` |
| JsonDiffViewer.NextRepeated | frontend/src/components/JsonDiffViewer.jsx:68-75 | pressing "next" k times advances k rows and stops at the last one (no wrap-around) |
| JsonDiffViewer.PreviousRepeated | frontend/src/components/JsonDiffViewer.jsx:68-75 | pressing "previous" k times goes back k rows and stops at the first (no underflow) |
| JsonDiffViewer.PreviousFromStart | frontend/src/components/JsonDiffViewer.jsx:68-75 | "previous" from the initial cursor -1 never moves it |
| JsonDiffViewer.DiffViewer.constructor | frontend/src/components/JsonDiffViewer.jsx:11-16 | first render: both texts, no rows, no markers, cursor -1 |
| JsonDiffViewer.DiffViewer.SetData | frontend/src/components/JsonDiffViewer.jsx:11-12 | new data recomputes the texts and leaves the rows, markers and cursor in place |
| JsonDiffViewer.DiffViewer.ScanForChanges | frontend/src/components/JsonDiffViewer.jsx:25-51 | when the scanned row count differs from the stored one, the rows and their markers replace the state and the cursor resets to -1; otherwise nothing changes; the invariant is kept |
| JsonDiffViewer.DiffViewer.ScanForChangesFixed | frontend/src/components/JsonDiffViewer.jsx:36-50 | corrected scan: the stored rows always equal the scanned rows, with one marker each, and the cursor resets whenever the rows change |
| JsonDiffViewer.DiffViewer.NavigateToChange | frontend/src/components/JsonDiffViewer.jsx:68-75 | the cursor becomes `cursor + direction` exactly when that is a row index, and that row is scrolled to; otherwise nothing happens |
| JsonDiffViewer.DiffViewer.HandleMarkerClick | frontend/src/components/JsonDiffViewer.jsx:77-81 | scrolls to the element; the cursor moves to its index when it is one of the rows, and stays otherwise |
| JsonDiffViewer.DiffViewer.PreviousEnabled | frontend/src/components/JsonDiffViewer.jsx:94 | the "previous" button is enabled exactly when pressing it moves the cursor |
| JsonDiffViewer.DiffViewer.NextEnabled | frontend/src/components/JsonDiffViewer.jsx:97 | the "next" button is enabled exactly when pressing it moves the cursor |
| JsonDiffViewer.DiffViewer.StatusPosition | frontend/src/components/JsonDiffViewer.jsx:91 | the number shown is the cursor plus one when the cursor is 0 or more, and 1 when it is negative; with a valid cursor and at least one row it lies between 1 and n |
| JsonDiffViewer.DiffViewer.StatusText | frontend/src/components/JsonDiffViewer.jsx:91 | the "no changes found" text is shown exactly when there are no rows; otherwise the text is the status line for the shown number and the row count |
| JsonDiffViewer.StatusLineReadsBack | frontend/src/components/JsonDiffViewer.jsx:91 | the status line starts with the word "change"; the number after it reads back as the position, and the number after the word "of" reads back as the count |
| JsonDiffViewer.SameCountScanKeepsStaleRows | frontend/src/components/JsonDiffViewer.jsx:36 | a scan of a different row, found while the state holds one row, has the same count: the state is not replaced |
| JsonDiffViewer.StaleAfterSameCountScan | frontend/src/components/JsonDiffViewer.jsx:36-40 | a viewer that scanned one row still holds that row and its marker after a scan that finds a different single row |
| DiffMinimap.ClassName | frontend/src/components/DiffMinimap.jsx:17 | the class is `minimap-marker added` exactly for an addition and `minimap-marker removed` exactly for a removal |
| DiffMinimap.TopPercent | frontend/src/components/DiffMinimap.jsx:18 | the position times `totalLines` is the line number times 100: the line's share of the document, in percent |
| DiffMinimap.Label | frontend/src/components/DiffMinimap.jsx:20-22 | the title starts with the fixed prefix, and the rest reads back as the line number |
| DiffMinimap.Item | frontend/src/components/DiffMinimap.jsx:15-23 | a marker element targets the marker's row; its class is `minimap-marker added` exactly for an addition and `minimap-marker removed` exactly for a removal; it is placed at `TopPercent` of its line |
| DiffMinimap.Render | frontend/src/components/DiffMinimap.jsx:8-27 | nothing exactly when `totalLines` is 0; otherwise one element per marker, in order: its target, the added/removed class exactly by the marker's type, its line's `TopPercent`, and its `Label` |
| DiffMinimap.PositionInTrack | frontend/src/components/DiffMinimap.jsx:18 | a line of the document is placed within [0, 100] percent |
| DiffMinimap.PositionMonotone | frontend/src/components/DiffMinimap.jsx:18 | a later line is never placed above an earlier one |
| DiffMinimap.LabelsDistinct | frontend/src/components/DiffMinimap.jsx:20-22 | different lines get different titles |
| DiffMinimap.ClickTargetIsRow | frontend/src/components/DiffMinimap.jsx:19 | the click target of the viewer's marker i is row i of the viewer |
| DiffMinimap.ClickMinimapMarker | frontend/src/components/DiffMinimap.jsx:19 | clicking minimap marker i makes change i current and scrolls to row i; the rows, the markers and both texts are unchanged |
| Snapshots.KeywordKind | frontend/src/components/SnapshotDetail.jsx:19-28 | the tests apply in order: created exactly when a creation keyword occurs; modified exactly when none does and a modification keyword occurs; deleted exactly when neither does and a deletion keyword occurs; info exactly when no keyword occurs |
| Snapshots.ShownExplanation | frontend/src/components/SnapshotDetail.jsx:53-54 | the explanation is shown exactly when it is a non-empty string |
| Snapshots.LowerMessage | frontend/src/components/SnapshotDetail.jsx:18 | lower-casing a backend line changes only the policy name |
| Snapshots.MessageContainsKeyword | frontend/src/components/SnapshotDetail.jsx:19-26 | the lower-cased backend line contains the Hebrew keyword of its kind |
| Snapshots.BackendLineKind | frontend/src/components/SnapshotDetail.jsx:19-28 | whatever the English creation word, a backend line is never info; a creation is created; a modification is created or modified |
| Snapshots.PrefixKindOfMessage | backend/monitor.py:38-48 | every backend line is recognised by its own prefix as its kind |
| Snapshots.InitialMessageIsInitial | frontend/src/components/SnapshotDetail.jsx:70 | the backend's first-run line contains `Initial configuration` |
| SnapshotDetailJsx.ChangeKindOf | frontend/src/components/SnapshotDetail.jsx:18-28 | created exactly when the lower-cased line contains `added` or the Hebrew creation word; a null or empty line is info |
| SnapshotDetailJsx.ChangeItemOf | frontend/src/components/SnapshotDetail.jsx:16-29 | the item has the line's kind, the shown text is the change itself in every branch, and the colour is the kind's |
| SnapshotDetailJsx.ClassificationIgnoresCase | frontend/src/components/SnapshotDetail.jsx:18 | a line and its lower-case form get the same kind |
| SnapshotDetailJsx.BackendCreationShownCreated | frontend/src/components/SnapshotDetail.jsx:19 | a backend creation line is always shown as created |
| SnapshotDetailJsx.BackendLineNeverInfo | frontend/src/components/SnapshotDetail.jsx:19-28 | no backend line is shown as info |
| SnapshotDetailJsx.ModificationShownAsCreation | frontend/src/components/SnapshotDetail.jsx:19-23 | a modification of a policy named "Added users" is shown as created |
| SnapshotDetailJsx.FixedClassifiesBackendLines | frontend/src/components/SnapshotDetail.jsx:19-28 | corrected classifier: every backend line gets the kind of its change, whatever the policy's name |
| SnapshotDetailJsx.HasPreviousConfig | frontend/src/components/SnapshotDetail.jsx:69 | the diff button is offered only for a selected snapshot with a present, non-null previous configuration, and always when that configuration is a list or an object |
| SnapshotDetailJsx.AnyInitial | frontend/src/components/SnapshotDetail.jsx:70 | holds exactly when some non-null change contains `Initial configuration` |
| SnapshotDetailJsx.IsInitialSnapshot | frontend/src/components/SnapshotDetail.jsx:70 | a snapshot is initial exactly when it is selected, has a change list, and some non-null line of it contains `Initial configuration` |
| SnapshotDetailJsx.ContentBody | frontend/src/components/SnapshotDetail.jsx:146-166 | an initial snapshot shows only its explanation section, which holds the explanation exactly when it is a non-empty string; otherwise, when there are changes, one item per change, in order, followed by the same explanation section; otherwise "no changes" |
| SnapshotDetailJsx.Render | frontend/src/components/SnapshotDetail.jsx:82-168 | loading first, then error, then no selection, then the content, with the diff button and the body |
| SnapshotDetailJsx.AreEqual | frontend/src/components/SnapshotDetail.jsx:172-178 | props `areEqual` calls equal render the same view, so skipping the render hides nothing |
| SnapshotDetailJsx.FirstSnapshotShowsExplanation | frontend/src/components/SnapshotDetail.jsx:147-148 | the backend's first snapshot shows only its explanation, with no diff button |
| SnapshotDetailJs.FirstMatch | frontend/src/components/SnapshotDetail.js:11 | the alternative found is one of the alternatives, and it matches at the start ignoring case |
| SnapshotDetailJs.FirstMatchNone | frontend/src/components/SnapshotDetail.js:11 | nothing is found exactly when no alternative matches |
| SnapshotDetailJs.ReplaceStep | frontend/src/components/SnapshotDetail.js:11 | where nothing matches, the replace copies the first character |
| SnapshotDetailJs.ReplaceAll | frontend/src/components/SnapshotDetail.js:11-13 | the global case-insensitive replace returns text with no match at any position unchanged |
| SnapshotDetailJs.ReplaceCopiesUnmatched | frontend/src/components/SnapshotDetail.js:11-13 | a prefix with no match in it is copied unchanged |
| SnapshotDetailJs.DisplayText | frontend/src/components/SnapshotDetail.js:11-14 | an info line is shown unchanged |
| SnapshotDetailJs.ChangeKindOf | frontend/src/components/SnapshotDetail.js:10-14 | created exactly when the lower-cased line contains `created` or the Hebrew creation word; an empty line is info |
| SnapshotDetailJs.ChangeItemOf | frontend/src/components/SnapshotDetail.js:8-15 | the item has the line's kind and that kind's colour, and shows the line rewritten for that kind; an info line is shown unchanged |
| SnapshotDetailJs.EnglishCreationTranslated | frontend/src/components/SnapshotDetail.js:11 | a line starting `Policy Created:` in any letter case is created and shown starting with the Hebrew label |
| SnapshotDetailJs.HebrewKeywordReplaced | frontend/src/components/SnapshotDetail.js:11 | at the Hebrew keyword the creation pattern matches and is replaced by the label |
| SnapshotDetailJs.CreationLineRewritten | frontend/src/components/SnapshotDetail.js:11 | rewriting a backend creation line yields the word "policy" followed by the whole label |
| SnapshotDetailJs.BackendCreationLabelDoubled | frontend/src/components/SnapshotDetail.js:11 | a backend creation line is shown as created, but with the word "policy" doubled |
| SnapshotDetailJs.FixedShowsBackendLines | frontend/src/components/SnapshotDetail.js:10-14 | corrected item: every backend line is shown unchanged, in the colour of its change |
| SnapshotDetailJs.HasPreviousConfig | frontend/src/components/SnapshotDetail.js:54 | the diff button is hidden exactly when `previous_config` is `null`; a missing field still offers it |
| SnapshotDetailJs.MissingPreviousConfigOffersDiff | frontend/src/components/SnapshotDetail.js:54 | a snapshot without a `previous_config` field gets the diff button here, but not in the `.jsx` version |
| SnapshotDetailJs.SomeInitial | frontend/src/components/SnapshotDetail.js:55 | scanning left to right, the test throws exactly when it reaches a null line before any initial line, is true exactly when it reaches an initial line first, and is false exactly when every line is present and none is initial; without null lines it agrees with the `.jsx` test |
| SnapshotDetailJs.ShiftClear | frontend/src/components/SnapshotDetail.js:55 | after a present, non-initial first line, the outcome of the scan is decided by the remaining lines |
| SnapshotDetailJs.IsInitialSnapshot | frontend/src/components/SnapshotDetail.js:55 | false without a change list; throws exactly when a null line comes before any initial line; without null lines it agrees with the `.jsx` flag |
| SnapshotDetailJs.ChangeItems | frontend/src/components/SnapshotDetail.js:98 | the list renders exactly when no line is null, with one item per line, in order |
| SnapshotDetailJs.Render | frontend/src/components/SnapshotDetail.js:31-117 | loading first, then no selection, then the content with the diff button; rendering fails only on a null change line |
| SnapshotDetailJs.VersionsAgreeOnBody | frontend/src/components/SnapshotDetail.js:85-113 | on snapshots without null lines both versions choose the same kind of body |

## Left out

- The line diff itself is computed by the `react-diff-viewer` library. The model takes the rendered rows, in cell order, as input.
- DOM work is replaced by explicit calls:
  - `querySelectorAll`, `closest` and `offsetTop` measurement;
  - `MutationObserver` and the effect's re-run;
  - `scrollIntoView`.

  A scan is a method call with the rows, and a scroll is returned as the row scrolled to.
- Row identity (`===` on DOM nodes) is value equality on `Row`, which carries an identity field.
- `JSON.stringify` formatting is not modelled. Its output, or `undefined`, is an input to `SideText`.
- `parseInt` of the line-number cell is an input (`Row.lineNumber`); a `NaN` result is not modelled.
- JsonDiffViewer.jsx:39 computes a `totalLines` inside the scan and never uses it. Only the one at line 84 is modelled.
- The snapshot timestamp, its `Intl`/`toLocaleString` formatting and the header texts are left out, since they do not affect any decision.
- DOMPurify sanitising of the explanation is left out. Only whether an explanation is shown is modelled.
- The click callbacks and `stopPropagation` are left out. `onShowConfig` appears only as an identity that `areEqual` ignores.
- The I/O of `check_for_changes` is passed in or returned:
  - `get_latest_snapshot` and `fetch_current_config` become the parameters `oldConfig` and `newConfig`;
  - the explanation service is a function parameter, and the clock a timestamp parameter;
  - `save_snapshot` is the returned `Saved` outcome.
- `backend/openai_client.py` is not part of this model: the explanation is an opaque function of the change lines.
- Console logging is left out.
- Monitor.DictKey: a boolean id is stored as its integer key. Python keeps the key object first inserted (`True` rather than `1`), but no reported line shows the key, so no output differs.
- backend/monitor.py:8 and :10 import `fetch_current_config` and `get_change_explanation`. backend/graph_client.py defines no `fetch_current_config` (its functions are `_get_access_token` and `fetch_all_graph_data`), and backend/openai_client.py defines no `get_change_explanation` (its one function is `get_explanation`), so the module as written fails at import. The model takes the fetched configuration and the explanation function as parameters of `CheckForChanges`, so the failed import is not modelled.
- Numbers in JSON are integers. `str()` of a display name that is a list or dict is a placeholder (`PyStr`).
- Text.Lower: only ASCII letters are case-folded. The Hebrew keywords have no case.
- Monitor.IndexById: the comprehension stops at the first bad record. The model checks all records at once (`AllIdsUsable`), which gives the same outcome, the empty result.
- JsonDiffViewer.SortByOffset: the stability of `Array.prototype.sort` is not stated. Sortedness, permutation and distinctness are.
- SnapshotDetailJs.Render: its contract fixes the precedence and the diff button. The body is related to the `.jsx` version by `VersionsAgreeOnBody` and to the items by `ChangeItems`, not restated in full.
- SnapshotDetailJs.DisplayText: for the created/modified/deleted kinds, the rewrite is characterised by `ReplaceAll` and the replace lemmas (`ReplaceCopiesUnmatched`, `HebrewKeywordReplaced`, `EnglishCreationTranslated`) rather than by its own contract.
- SnapshotDetailJsx.HasPreviousConfig: states what a true result implies and that a stored list or object offers the button. For a previous configuration that is a string, number or boolean, JavaScript truthiness decides, as in its definition.
- SnapshotDetailJsx.AreEqual: `===` on the snapshot and error objects is modelled as value equality. Two distinct but equal objects are "equal" here and not in the code. The code then renders again and shows the same view, so nothing visible differs.
- DiffMinimap.PositionInTrack: requires `0 <= lineNumber <= totalLines`. Line 0, which a row without a line-number cell gets, is inside this range and is placed at the top. A negative line number, or one past `totalLines`, is placed outside the track in the code too, so the lemma does not cover it.

## Findings

| source | as written | input that shows it | evidently intended | confidence | as-written member | corrected member |
|---|---|---|---|---|---|---|
| frontend/src/components/SnapshotDetail.jsx:19-28 | the keywords are searched in the whole line, the policy name included | the backend line for a modified policy named "Added users" | a backend line is classified by its own prefix, whatever the policy is called | not executed | SnapshotDetailJsx.ModificationShownAsCreation | SnapshotDetailJsx.FixedClassifiesBackendLines |
| frontend/src/components/SnapshotDetail.js:11 | the replace pattern `נוצרה:` also matches inside the backend's own prefix `מדיניות נוצרה:` | any backend creation line, which is then shown starting `מדיניות מדיניות נוצרה:` | a line that already carries the backend's prefix is shown unchanged | not executed | SnapshotDetailJs.BackendCreationLabelDoubled | SnapshotDetailJs.FixedShowsBackendLines |
| frontend/src/components/JsonDiffViewer.jsx:36 | the stored rows are replaced only when the number of rows differs | the state holds one changed row and the next diff also has one changed row, a different one | the rows, markers and cursor are rebuilt whenever the scanned rows differ | not executed | JsonDiffViewer.StaleAfterSameCountScan | JsonDiffViewer.DiffViewer.ScanForChangesFixed |
