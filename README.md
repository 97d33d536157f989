# UserTable, modelled in Dafny

This project models the admin user table of `src/components/UserTable.js`, a React
component. Under its markup the component is a small state machine with four pieces
of state:

- `users`: the loaded user rows;
- `selectedRows`: the ids whose checkbox is ticked, kept as a list;
- `searchTerm`: the text of the search box;
- `currentPage`: the page being shown.

Every event handler replaces that state with a new value. The rows and the selection
are recomputed by JavaScript `filter`, `map` or spread expressions over the old state.
The page, the search term and the resets of the selection to `[]` are set directly.

The model is in seven modules:

- `JsArray` (`js_array.dfy`) models the array built-ins `filter`, `map` and `slice`.
  It also proves generic facts about filtering: order, all copies removed, distinct
  keys kept.
- `JsString` (`js_string.dfy`) models `toLowerCase`, restricted to ASCII, and `includes`.
- `Users` (`users.dfy`) holds the row datatype and the row-level transformations: the
  search filter, entering edit mode, buffering typed values, saving, and deleting one
  row. It also has the value an editable cell shows.
- `Paging` (`paging.dfy`) holds the page size of 15, the page count, the slice shown
  for a page, and the clamp applied to page requests.
- `Selection` (`selection.dfy`) holds the checkbox toggle, select-all, the header
  checkbox and the bulk delete.
- `UserTableComponent` (`user_table.dfy`) holds the class `UserTable`. It has the four
  state fields and one method per handler. Each method's postcondition ties the new
  state to the functions above and says that the other fields are unchanged.
- `Scenarios` (`scenarios.dfy`) works through small concrete examples: a search, and
  a bulk delete, once on the functions and once through the handlers.

Behaviour of the code that the model keeps as written:

- The page count is computed from the whole list, not from the search result.
  `PageCountIgnoresSearch` shows that a page the clamp admits can be empty under a
  search. Deleting a row never re-clamps the page: `HandleDelete` promises that
  `currentPage` is unchanged. `DeleteLeavesPageBehind` is an example: 16 rows on page 2,
  one deleted, leaves a single page and page 2 empty.
- Saving does not clear a row's buffer of edited values. So saving twice is saving once
  (`SaveIdempotent`).
- Deleting one row clears the whole selection, not only that row's id.
- Select-all selects the ids of the whole list, not of the filtered or shown rows.
- Typing into the search box filters at once but does not reset the page. Only the
  search button resets it.
- Toggling a checkbox twice restores the selection exactly when the id was not
  selected (`ToggleTwiceAbsent`), or was selected once as the last entry
  (`ToggleTwiceLast`). Otherwise every copy of the id is removed and the id comes back
  once at the end of the list (`ToggleTwicePresent`, `ToggleTwiceReorders`).
- A cleared input is the empty string, which JavaScript treats as false. The cell then
  shows the committed value again, but saving commits the empty string
  (`ClearedInputShowsOldButSavesEmpty`).

The class keeps three invariants together as `Coherent()`: the rows have unique ids, at
most one row is in edit mode (`OneEditing`), and the selection lists ids of rows, each
once. Edit, save, typing, both deletes and select-all keep it from any coherent state.
A row checkbox keeps it only when it toggles the id of a row; toggling an id that
belongs to no row adds a stray id to the selection (`ToggleStray`). `Load` gives it only when the old
selection is empty and the loaded ids are unique.

Ids are `StrId` or `NumId`, because the feed may deliver either and the code compares
them with `===`. This is also why an id takes part in the search only when it is a
string.

## Model

| member | source | states |
|---|---|---|
| `JsArray.Filter` | src/components/UserTable.js:32-37 | the result holds exactly the input elements that satisfy the predicate and is no longer than the input |
| `JsArray.Map` | src/components/UserTable.js:77-79 | one result per element, each element mapped at its own position |
| `JsArray.RelativeIndex` | src/components/UserTable.js:41 | an argument of `slice` becomes an index within 0..length; its meaning for negative arguments is stated by `JsArray.SliceNegativeStart` and `JsArray.SliceNegativeEnd` |
| `JsArray.Slice` | src/components/UserTable.js:41 | for 0 <= start <= end, the result is the run of elements from the start up to the end or the list's end, and is empty past the list; for 0 <= end <= start it is empty |
| `JsArray.SliceNegativeStart` | src/components/UserTable.js:41 | a negative start counts back from the list's end, and one reaching past the front means the front |
| `JsArray.SliceNegativeEnd` | src/components/UserTable.js:41 | a negative end counts back from the list's end likewise |
| `JsArray.SliceSuffix` | src/components/UserTable.js:41 | slicing from -k to the length gives the last k elements |
| `JsArray.FilterConcat` | src/components/UserTable.js:32-37 | filtering a concatenation is concatenating the filtered parts, so kept elements keep their order |
| `JsArray.FilterAll` | src/components/UserTable.js:32-37 | a predicate true of every element keeps the whole list |
| `JsArray.FilterAgree` | src/components/UserTable.js:32-37 | predicates that agree on every element filter identically |
| `JsArray.FilterMultiset` | src/components/UserTable.js:58 | filtering keeps every copy of a kept element and no copy of a dropped one |
| `JsArray.FilterPairwise` | src/components/UserTable.js:70 | any relation holding between every two elements in list order still holds after filtering |
| `JsArray.FilterDistinctKeys` | src/components/UserTable.js:94 | filtering keeps keys pairwise distinct |
| `JsArray.NoDupCard` | src/components/UserTable.js:128 | a list without repeats has as many distinct elements as positions |
| `JsString.LowerChar` | src/components/UserTable.js:35 | an upper-case ASCII letter becomes its lower-case partner and every other character is kept |
| `JsString.Lower` | src/components/UserTable.js:35 | same length, each character folded, no upper-case letter left |
| `JsString.LowerIdempotent` | src/components/UserTable.js:35 | folding twice equals folding once |
| `JsString.Includes` | src/components/UserTable.js:35 | a term longer than the string is never included, and every prefix of the string is |
| `JsString.IncludesSplit` | src/components/UserTable.js:35 | a string includes a term exactly when it splits as a + term + b |
| `JsString.IncludesEmpty` | src/components/UserTable.js:35 | every string includes the empty term |
| `Users.Ids` | src/components/UserTable.js:100 | the ids of the rows, one per row, in list order |
| `Users.IdsIn` | src/components/UserTable.js:100 | an id is in the id list exactly when some row has it |
| `Users.Annotate` | src/components/UserTable.js:21 | each loaded record becomes a row with the same id and columns, not editing, with an empty buffer |
| `Users.AnnotateOneEditing` | src/components/UserTable.js:21 | a freshly loaded list has no row in edit mode |
| `Users.SearchableValues` | src/components/UserTable.js:33-35 | the string values of a row are exactly name, email and role, plus the id when it is a string |
| `Users.Matches` | src/components/UserTable.js:33-35 | a row matches exactly when its folded name, email or role, or its folded id when that is a string, includes the folded term |
| `Users.SearchFilter` | src/components/UserTable.js:32-37 | every kept row has a string value whose folded form includes the folded term, and every such row of the list is kept |
| `Users.SearchFilterConcat` | src/components/UserTable.js:32-37 | the search keeps the rows in their list order |
| `Users.SearchEmptyTermKeepsAll` | src/components/UserTable.js:32-37 | an empty term keeps every row |
| `Users.SearchCaseInsensitive` | src/components/UserTable.js:35 | two terms with the same lower-case form select the same rows |
| `Users.SearchLowerTerm` | src/components/UserTable.js:35 | a term and its lower-case form select the same rows |
| `Users.EditRows` | src/components/UserTable.js:75-81 | a row is editing after the call exactly when its id is the given id; length and every other part of each row are unchanged |
| `Users.EditExclusive` | src/components/UserTable.js:75-81 | with unique ids at most one row is editing, and one is exactly when the id is present |
| `Users.EditOneEditing` | src/components/UserTable.js:75-81 | with unique ids, after an edit at most one row is in edit mode, whatever the rows were doing before |
| `Users.EditThenEdit` | src/components/UserTable.js:75-81 | editing A and then B leaves A's rows viewing and B's editing, the same as editing B alone |
| `Users.InputRows` | src/components/UserTable.js:103-109 | the matching rows get the buffer entry for the field set to the value; the other rows are unchanged |
| `Users.InputKeepsCommitted` | src/components/UserTable.js:103-109 | typing changes no committed column, no editing flag, no id, and neither the presence nor the value of any other buffer key |
| `Users.InputOneEditing` | src/components/UserTable.js:103-109 | typing keeps at most one row in edit mode |
| `Users.Commit` | src/components/UserTable.js:87 | the row stops editing, each column in the buffer takes the buffered value, the others keep theirs, and the buffer stays |
| `Users.SaveRows` | src/components/UserTable.js:83-91 | the matching rows are committed as above; all other rows are unchanged |
| `Users.SaveOneEditing` | src/components/UserTable.js:83-91 | saving keeps at most one row in edit mode |
| `Users.SaveIdempotent` | src/components/UserTable.js:87 | because the buffer is kept, saving twice equals saving once |
| `Users.InputThenSave` | src/components/UserTable.js:83-109 | typing a value and saving commits exactly that value, and an untouched column keeps its value |
| `Users.DeleteRows` | src/components/UserTable.js:94 | the result holds exactly the rows whose id differs from the given id |
| `Users.DeleteRowsOrder` | src/components/UserTable.js:94 | the surviving rows keep their order, and unique ids stay unique |
| `Users.FilterOneEditing` | src/components/UserTable.js:94 | filtering the rows, as both deletes do, keeps at most one row in edit mode |
| `Users.DeleteOneEditing` | src/components/UserTable.js:94 | deleting a row keeps at most one row in edit mode |
| `Users.DeleteRowsLength` | src/components/UserTable.js:94 | with unique ids, deleting a present id removes exactly one row |
| `Users.UniqueIdsNoDup` | src/components/UserTable.js:100 | if the rows have unique ids, the list of ids has no repeats |
| `Users.Shown` | src/components/UserTable.js:149-157 | the case split of the cell's `||` fallback: an editing cell shows the buffered value unless it is missing or empty, otherwise the committed value; what that means for saving is `Users.ShownIsSaved` |
| `Users.ShownIsSaved` | src/components/UserTable.js:149-157 | while editing, the cell shows exactly what saving would commit unless the buffered value is "" and the committed one is not; the cell always shows the committed or the to-be-saved value |
| `Users.ClearedInputShowsOldButSavesEmpty` | src/components/UserTable.js:152 | after clearing an input the cell shows the committed value, yet saving commits the empty string |
| `Paging.TotalPages` | src/components/UserTable.js:43 | the least number of 15-row pages that hold the rows; zero exactly for no rows |
| `Paging.PageStart` | src/components/UserTable.js:39 | a page starts at the number of rows on the pages before it, a multiple of 15, and at 0 or later for a page number of at least 1 |
| `Paging.PageOf` | src/components/UserTable.js:39-41 | a page holds at most 15 rows |
| `Paging.PageShape` | src/components/UserTable.js:39-41 | page p, for p of at least 1, is the list from (p-1)*15 up to min(p*15, length), and is empty once (p-1)*15 reaches the length |
| `Paging.PageLocates` | src/components/UserTable.js:39-41 | row k appears on page k/15+1 at position k%15 |
| `Paging.LastPageSize` | src/components/UserTable.js:39-43 | the last page holds length - 15*(pages-1) rows, between 1 and 15 |
| `Paging.PagesBeyondEmpty` | src/components/UserTable.js:39-43 | every page past the page count is empty |
| `Paging.Clamp` | src/components/UserTable.js:50 | the result lies in 1..max(1, total), is the request when the request is in range, is 1 below it and max(1, total) above it |
| `Selection.Toggle` | src/components/UserTable.js:55-62 | the id's membership flips and no other id's membership changes; an absent id is appended at the end; a present id loses every copy and the other ids keep their multiplicities |
| `Selection.ToggleRemoveOrder` | src/components/UserTable.js:58 | removing an id keeps the other ids in their order |
| `Selection.ToggleNoDup` | src/components/UserTable.js:55-62 | a selection without repeats keeps that property |
| `Selection.ToggleTwiceAbsent` | src/components/UserTable.js:55-62 | toggling an unselected id twice restores the selection exactly |
| `Selection.ToggleTwicePresent` | src/components/UserTable.js:55-62 | toggling a selected id twice gives the other ids in their order followed by the id; without repeats, the same ids with the toggled one last |
| `Selection.ToggleTwiceLast` | src/components/UserTable.js:55-62 | a selected id that occurs once, as the last entry, toggled twice gives back the exact selection |
| `Selection.ToggleTwiceReorders` | src/components/UserTable.js:55-62 | for example [1, 2] toggled at 1 twice becomes [2, 1] |
| `Selection.ToggleStray` | src/components/UserTable.js:55-62 | toggling an id that belongs to no row turns a consistent selection into an inconsistent one |
| `Selection.HeaderChecked` | src/components/UserTable.js:128 | for rows with unique ids and a selection of row ids without repeats, the header reads as checked exactly when every row is selected |
| `Selection.HeaderCheckedIffAllSelected` | src/components/UserTable.js:128 | under the same conditions, the selection is as long as the list exactly when every row is selected |
| `Selection.SelectAllConsistent` | src/components/UserTable.js:99-101 | select-all gives a selection without repeats, of row ids only, covering every row, with the header checked |
| `Selection.DeleteSelected` | src/components/UserTable.js:70 | the result holds exactly the rows whose id is not selected |
| `Selection.DeleteSelectedOrder` | src/components/UserTable.js:70 | the rows that survive a bulk delete keep their order, and unique ids stay unique |
| `Selection.DeleteSelectedOneEditing` | src/components/UserTable.js:70 | a bulk delete keeps at most one row in edit mode |
| `Selection.DeletedIdsStayDeleted` | src/components/UserTable.js:93-101 | after either delete, select-all never selects a deleted id |
| `UserTableComponent.UserTable.constructor` | src/components/UserTable.js:8-11 | no rows, no selection, an empty term and page 1 |
| `UserTableComponent.UserTable.PageCount` | src/components/UserTable.js:43 | the least number of 15-row pages that hold the whole list, not the search result; zero exactly for no rows |
| `UserTableComponent.UserTable.HeaderIsChecked` | src/components/UserTable.js:128 | in a coherent state the header checkbox is checked exactly when every row is selected |
| `UserTableComponent.UserTable.RowIsChecked` | src/components/UserTable.js:143 | in a coherent state a checked id belongs to a row, and with the header checked every row's box is checked |
| `UserTableComponent.UserTable.Visible` | src/components/UserTable.js:31-42 | the rows shown are the current page's slice of the search result: at most 15 rows, all matching |
| `UserTableComponent.UserTable.Load` | src/components/UserTable.js:21 | the rows become the annotated records, none in edit mode, and nothing else changes; with an empty selection and unique ids the state is coherent |
| `UserTableComponent.UserTable.HandleSearchInput` | src/components/UserTable.js:118 | only the search term changes |
| `UserTableComponent.UserTable.HandleSearch` | src/components/UserTable.js:45-47 | the page becomes 1 and nothing else changes |
| `UserTableComponent.UserTable.HandlePageChange` | src/components/UserTable.js:49-52 | the page becomes the clamped request, within 1..max(1, page count of the whole list); nothing else changes |
| `UserTableComponent.UserTable.HandleCheckboxChange` | src/components/UserTable.js:55-63 | the selection becomes the toggled one and the row checkbox flips; selection coherence is kept for an id of a row |
| `UserTableComponent.UserTable.HandleDeleteSelected` | src/components/UserTable.js:65-73 | with an empty selection nothing changes; otherwise the unselected rows remain and the selection empties; coherence, including at most one row editing, is kept |
| `UserTableComponent.UserTable.HandleEdit` | src/components/UserTable.js:75-81 | the rows become EditRows of the old rows, with at most one editing when ids are unique; nothing else changes; coherence is kept |
| `UserTableComponent.UserTable.HandleSave` | src/components/UserTable.js:83-91 | the rows become SaveRows of the old rows; nothing else changes; coherence is kept |
| `UserTableComponent.UserTable.HandleDelete` | src/components/UserTable.js:93-97 | the rows with the id go and the whole selection is cleared; coherence is kept |
| `UserTableComponent.UserTable.HandleSelectAll` | src/components/UserTable.js:99-101 | the selection becomes the ids of the whole list and the header reads as checked; with unique ids the selection is consistent, and coherence is kept |
| `UserTableComponent.UserTable.HandleInputChange` | src/components/UserTable.js:103-109 | the rows become InputRows of the old rows; nothing else changes; coherence is kept |
| `UserTableComponent.SameIdsCoherent` | src/components/UserTable.js:75-109 | a transformation that keeps every row's id keeps ids unique and the selection coherent |
| `UserTableComponent.PageCountIgnoresSearch` | src/components/UserTable.js:43 | a page that the count of the whole list admits can be empty under a search |
| `UserTableComponent.DeleteLeavesPageBehind` | src/components/UserTable.js:93-97 | an example: with 16 rows on page 2, deleting one leaves one page and an empty page 2 |
| `Scenarios.SearchScenario` | src/components/UserTable.js:32-37 | searching "b" over Alice, Bob and Carol finds only Bob |
| `Scenarios.BulkDeleteScenario` | src/components/UserTable.js:65-73 | selecting ids 1 and 3, then a bulk delete, leaves only row 2 |
| `Scenarios.BulkDeleteThroughHandlers` | src/components/UserTable.js:55-73 | the same through the handlers, with the selection empty afterwards |

## Left out

- The fetch and JSON decoding (src/components/UserTable.js:16-28) are network I/O. `Load` takes the decoded records as a parameter. A failed fetch never calls `setUsers`, so `users` stays `[]`; the model then simply does not call `Load`.
- `alert` and `console.error` are user-facing or diagnostic side effects with no state effect. The one that marks a branch is `HandleDeleteSelected`'s `deleted` result.
- Rendering is left out: the markup, icons, CSS classes and the `disabled` state of the page buttons. They are kept only as the predicates for the header and row checkboxes, the shown cell value, the visible rows and the page count. `HandlePageChange` accepts any page number, as the handler does.
- React runtime behaviour is left out: `useMemo` caching, batching of state updates and stale closures. Each handler is one atomic transition.
- `Lower` folds ASCII letters only, not full Unicode `toLowerCase`.
- `TotalPages` uses exact integer ceiling division, not floating-point `Math.ceil`. Integers are unbounded rather than IEEE doubles. Non-integer page arguments are not modelled.
- `SearchableValues` is a fixed list: id when it is a string, name, email, role. It replaces `Object.values`. Other fields the feed may carry are not modelled.
- `InputRows` restricts the field argument to name, email and role, the only ones the markup passes. A different key would be spread onto the row by save, and could overwrite `id` or `isEditing`. That case is not modelled.
- Unique ids are an assumption about the feed. The lemmas that need unique ids state it as a precondition, and the handlers only preserve it.

