# History panel and file dashboard

This project models two pieces of a collaborative drawing application.

**The history side panel** (`components/history-panel.tsx`) turns each
committed history entry into a short description. It has one text per action
kind. Missing or empty detail fields fall back to defaults, in the way
JavaScript's `||` does. Any other action is shown as its name with every
underscore turned into a space. The panel lists one item per entry, or shows
"No history yet" when there are none. Clicking an item asks the page to
restore that entry only when the entry carries a canvas snapshot.

**The file dashboard** (`app/dashboard/page.tsx`) holds four pieces of state:
a list of file names, the text typed into the new-file dialog, whether that
dialog is open, and the file last clicked. Its handlers do three things:

- Create adds the typed name when its trimmed form is not empty.
- Delete filters out every file with the given name.
- Click records the active file and gives the `/draw/<name>` route.

The model has three modules:

- `Wrappers` (`wrappers.dfy`) defines `Option`. It stands for a JavaScript field that may be `undefined` or `null`.
- `HistoryPanel` (`history_panel.dfy`) is pure: datatypes for entries and their details, the description function, rendering, and the click gate.
- `Dashboard` (`dashboard.dfy`) has pure functions for `trim`, `filter` and the route. Its class `DashboardState` has one method per handler, and each method modifies the component's state fields.

Each entry has the fields the drawing page sets when it commits one
(`app/draw/[id]/page.tsx:87-94`): timestamp, action, object id, details, user
id and canvas snapshot. The details keep only the four fields the panel reads.
The payload's `type` field is named `objectType`, because `type` is a Dafny
keyword. `count` is a `nat`, because the page fills it from a map's size.

## Model

| member | source | states |
|---|---|---|
| `HistoryPanel.Description` | components/history-panel.tsx:20-51 | `getActionDescription`: every one of the thirteen known action kinds gives a non-empty text, and any other action gives its name with underscores replaced. The per-kind texts are stated by the lemmas below |
| `HistoryPanel.OrElse` | components/history-panel.tsx:25 | `value || fallback` on a string field: a present, non-empty value is kept, and a missing or empty one gives the fallback. Lines 27, 33, 39 and 41 use it the same way |
| `HistoryPanel.FixedDescriptions` | components/history-panel.tsx:21-47 | canvas_initialized, selection_created, path_created, shape_deleted, undo_performed, redo_performed and state_restored each map to their fixed text |
| `HistoryPanel.TypedDescriptions` | components/history-panel.tsx:24-33 | shape_created, object_modified and shape_synced give "Created ", "Modified " or "Updated " followed by the payload's type when it is a non-empty string. Otherwise they fall back to "shape", "object" and "shape". A missing payload, a missing type and an empty type all give the fallback |
| `HistoryPanel.ToolAndUploadDescriptions` | components/history-panel.tsx:38-41 | active_element_changed gives "Changed tool to " followed by `to`, or by nothing when `to` is falsy. image_uploaded gives "Uploaded image: " followed by the filename, or by "image" |
| `HistoryPanel.ClearedCountRecoverable` | components/history-panel.tsx:34-35 | all_shapes_deleted gives "Cleared canvas (", then exactly `NatToDecimal` of the count (0 when it is missing), then " objects)". Those digits have no leading zero and read back as the count |
| `HistoryPanel.NatToDecimal` | components/history-panel.tsx:35 | the interpolated count is a non-empty string of decimal digits with no leading zero |
| `HistoryPanel.DecimalRoundTrip` | components/history-panel.tsx:35 | reading the decimal text of a count gives back the count |
| `HistoryPanel.UnknownActionDescription` | components/history-panel.tsx:48-49 | any action outside the thirteen known kinds is shown as the action with underscores replaced. The text has the same length as the action and contains no underscore |
| `HistoryPanel.ReplaceUnderscores` | components/history-panel.tsx:49 | the regex replace keeps the length, turns each `_` into a space, keeps every other character in place, and leaves no `_` |
| `HistoryPanel.ReplaceUnderscoresIdempotent` | components/history-panel.tsx:49 | replacing twice equals replacing once, and a string without `_` is unchanged |
| `HistoryPanel.DescriptionIgnoresOtherFields` | components/history-panel.tsx:20-51 | two entries with the same action and details have the same description, whatever their timestamp, object, user or snapshot |
| `HistoryPanel.Click` | components/history-panel.tsx:70 | clicking an item forwards the entry to restore exactly when it has a snapshot, and forwards that same entry |
| `HistoryPanel.RestoreRequests` | components/history-panel.tsx:67-70 | over any series of clicks, every entry forwarded to restore is in the history and has a snapshot. Clicks only on snapshot-less entries forward nothing. Clicks only on entries with snapshots forward one entry per click |
| `HistoryPanel.RestoreRequestsAppend` | components/history-panel.tsx:67-70 | the requests of two consecutive click series are the first series' requests followed by the second's |
| `HistoryPanel.RestoreRequestsSingle` | components/history-panel.tsx:70 | one click requests exactly the clicked entry when it has a snapshot, and nothing otherwise. With `RestoreRequestsAppend`, this fixes which entries are forwarded, in what order and how many, for any series of clicks |
| `HistoryPanel.RenderItems` | components/history-panel.tsx:67-78 | one item per entry, in the same order. Each item carries that entry's description and timestamp, and is restorable exactly when the entry has a snapshot |
| `HistoryPanel.Render` | components/history-panel.tsx:63-67 | the panel shows "No history yet" exactly when the history is empty. Otherwise it shows one item per entry |
| `HistoryPanel.RestorableMatchesClick` | components/history-panel.tsx:70-74 | an item is styled as restorable exactly when clicking it requests a restore of its entry |
| `Dashboard.TrimStart` | app/dashboard/page.tsx:31 | the leading part of `trim`: the result is a suffix of the name, everything dropped is ECMAScript whitespace or a line terminator, and the result does not start with one |
| `Dashboard.TrimEnd` | app/dashboard/page.tsx:31 | the trailing part of `trim`: the result is a prefix, everything dropped is whitespace, and the result does not end with whitespace |
| `Dashboard.Trim` | app/dashboard/page.tsx:31 | `newFileName.trim()` is empty exactly when every character is whitespace. Otherwise it has no whitespace at either end |
| `Dashboard.HasContent` | app/dashboard/page.tsx:31 | the `if` guard holds exactly when some character of the name is not whitespace |
| `Dashboard.Without` | app/dashboard/page.tsx:40 | the filtered list is no longer than the original. It contains a file exactly when the original does and the file is not the deleted name |
| `Dashboard.WithoutKeepsOrder` | app/dashboard/page.tsx:40 | the filtered list is a subsequence of the original, so the remaining files keep their order |
| `Dashboard.WithoutCounts` | app/dashboard/page.tsx:40 | the filtered list has no copy of the deleted name and the same number of copies of every other name |
| `Dashboard.WithoutAbsent` | app/dashboard/page.tsx:40 | deleting a name that is not listed changes nothing |
| `Dashboard.WithoutIdempotent` | app/dashboard/page.tsx:40 | deleting twice equals deleting once |
| `Dashboard.WithoutAppend` | app/dashboard/page.tsx:40 | filtering a concatenation filters each part |
| `Dashboard.CreateThenDelete` | app/dashboard/page.tsx:30-41 | deleting a name after appending it gives the same list as deleting it without the append |
| `Dashboard.DrawRoute` | app/dashboard/page.tsx:26 | the route is "/draw/" followed by exactly the file name |
| `Dashboard.DrawRouteInjective` | app/dashboard/page.tsx:26 | different file names give different routes |
| `Dashboard.DashboardState.constructor` | app/dashboard/page.tsx:16-19 | the first state has files "file1.txt", "file2.txt" and "file3.txt", an empty input, the dialog closed and no active file |
| `Dashboard.DashboardState.HandleFileClick` | app/dashboard/page.tsx:23-28 | sets the active file to the clicked name and returns "/draw/" followed by it. Nothing else changes |
| `Dashboard.DashboardState.HandleNewFile` | app/dashboard/page.tsx:30-36 | with a name that has content, appends the untrimmed name at the end of the list (duplicates allowed), clears the input and closes the dialog. With a blank name, files, input and dialog are unchanged. The active file never changes |
| `Dashboard.DashboardState.HandleDeleteFile` | app/dashboard/page.tsx:38-41 | files become the filtered list and no longer contain the name. The input, the dialog and the active file are unchanged |
| `Dashboard.DashboardState.SetNewFileName` | app/dashboard/page.tsx:198 | typing in the input replaces the input text and changes nothing else |
| `Dashboard.DashboardState.SetDialogOpen` | app/dashboard/page.tsx:190 | the dialog's open state is set as given and nothing else changes. This also covers the "Create New File" card (line 175) and Cancel (line 208) |

## Left out

- `formatTimestamp` (components/history-panel.tsx:14-17): it depends on `Date` parsing and locale formatting. Items carry the raw timestamp instead.
- The 500 ms `setTimeout` and the `router.push` navigation in `handleFileClick`: only the route string is modelled, not the timing or the navigation.
- The floating-particle effect (app/dashboard/page.tsx:44-84): it is DOM work driven by `Math.random` and floating-point sizes.
- `e.stopPropagation()` in `handleDeleteFile` (app/dashboard/page.tsx:39): it stops the delete button's click from reaching the enclosing card's `handleFileClick` (lines 139, 146-151). The model reflects this: `HandleDeleteFile` leaves `activeFile` unchanged and gives no route. Only the DOM event itself is not modelled.
- Styling, animation and JSX layout, apart from the restorable flag that the panel's item styling depends on.
- Detail fields the panel never reads (`from`, `action`, `selectedIds`, `fromTimestamp`) are not part of `Details`.
- Code points and floating-point counts: strings are sequences of Unicode scalar values rather than UTF-16 code units, and `count` is a non-negative integer. The page only ever stores a map size there.
- The shared object store, the debounced history recorder, the snapshot restore and undo/redo are not part of this model. They sit in the drawing page and in a shared-storage library, outside these two files.
- The dialog wrapper components, the login form, the history button and the build configuration have no logic to model.
