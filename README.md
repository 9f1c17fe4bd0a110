# Client table: list processing of `TableDisplay`

This project models the list processing of the React component `TableDisplay`
in `src/Table.js` and proves its properties in Dafny. The component lists client records
fetched from a REST endpoint and lets the user search, sort, page through,
select and append records. The modelled parts are these:

- **Sorting.** `descendingComparator` and `getComparator` compare one column of
  two rows with JavaScript's `<` and `>` (module `Comparator`). `stableSort`
  tags each row with its index, sorts the pairs with the index as tie-break and
  strips the tags (module `StableSort`). A click on a header changes
  `(order, orderBy)` (module `SortHeader`).
- **Search.** The `handleSubmit` loop keeps the rows whose lower-cased name or
  email includes the lower-cased search word (module `Search`).
- **Local overlay.** `handleInputsSubmit` appends a locally numbered record.
  `refreshData` concatenates the fetched rows with those local rows (module `Overlay`).
- **Selection.** `handleClick` toggles one id. `handleSelectAllClick` selects
  every id or none (module `Selection`).
- **Pagination.** The render takes one page of the sorted rows (module `Paging`).
- **Component state.** The state cells and every event handler above form one
  class, `TableDisplay.TableState`. A fetch result enters as a parameter.

Two arguments make the sort proofs hold for the real component:

- `GetComparatorIsTotalPreorder` shows that both comparators the header can
  select are total preorders. This holds on the `editInfo` column too, where
  every value is `undefined` and every pair ranks level.
- `SortedUnique` shows that only one arrangement of the tagged rows is sorted.
  The insertion sort used as the model therefore gives the same result as the
  engine's `Array.prototype.sort`.

The model follows the code in four points that are easy to misread:

- The search filters the rows currently shown (`finalItems`), which include
  the local rows, not only the fetched rows.
- "Select all" decides whether the header box is checked by comparing the
  number of selected ids with the number of rows. It does not compare sets of
  ids.
- The selection is a list. A click appends an id or removes its first
  occurrence.
- The `editInfo` column can be chosen for sorting. It names no field, and
  sorting by it keeps the input order.

## Model

| member | source | states |
|---|---|---|
| `ClientRecords.Field` | src/Table.js:42 | `row[orderBy]` is a string for the six client columns and `undefined` exactly for `editInfo`. |
| `ClientRecords.Ids` | src/Table.js:414 | The `clientId`s of the rows, one per row, in row order. |
| `Comparator.StrLess` | src/Table.js:42-46 | JavaScript `<` on two strings. Nothing is below `""`, and `""` is below every non-empty string. `StrLessIsStandardOrder` states its full meaning. |
| `Comparator.StrLessIsStandardOrder` | src/Table.js:42-46 | `x < y` on strings is false when `y` is a prefix of `x`. It is true when `x` is a proper prefix of `y`. Otherwise the first differing character decides. |
| `Comparator.StrLessIrreflexive` | src/Table.js:42-46 | No string is less than itself. |
| `Comparator.StrLessAsymmetric` | src/Table.js:42-46 | `x < y` and `y < x` never both hold. |
| `Comparator.StrLessTransitive` | src/Table.js:42-46 | String `<` is transitive. |
| `Comparator.StrLessTrichotomy` | src/Table.js:42-46 | Two strings are equal or one is less than the other. |
| `Comparator.ValueLess` | src/Table.js:42-46 | JavaScript `<` on two column values. Any comparison involving `undefined` is false. |
| `Comparator.DescendingComparator` | src/Table.js:41-49 | `descendingComparator` answers -1, 0 or 1. `DescendingComparatorMeaning` states when it gives each answer. |
| `Comparator.Compare` | src/Table.js:51-55 | The comparator `getComparator` returns, applied to two rows, answers -1, 0 or 1. `CompareAntisymmetric`, `AscendingReversesDescending` and `CompareTransitive` state its meaning. |
| `Comparator.DescendingComparatorMeaning` | src/Table.js:41-49 | The result is -1, 0 or 1. It is -1 exactly when `a`'s value is larger and 1 exactly when it is smaller. It is 0 exactly when the two values are equal, including two `undefined`s. |
| `Comparator.CompareAntisymmetric` | src/Table.js:51-55 | For both directions the comparator returns -1, 0 or 1, and `cmp(a,b) == -cmp(b,a)`. |
| `Comparator.AscendingReversesDescending` | src/Table.js:51-55 | The `'asc'` comparator equals the `'desc'` one with its arguments swapped (the negation). Ascending puts the smaller value first; descending puts the larger first. |
| `Comparator.CompareReflexive` | src/Table.js:51-55 | A row ranks level with itself. |
| `Comparator.CompareTransitive` | src/Table.js:41-55 | "Ranks no later than" is transitive. |
| `Comparator.EditInfoRanksAllLevel` | src/Table.js:78 | The `editInfo` column names no field, so every pair compares 0. |
| `StableSort.GetComparator` | src/Table.js:51-55 | `getComparator(order, orderBy)` as a function value. Every answer is -1, 0 or 1. `GetComparatorIsTotalPreorder` states that it is a total preorder. |
| `StableSort.Tag` | src/Table.js:58 | Each row is paired with its index, in input order. |
| `StableSort.Untag` | src/Table.js:64 | The tags are stripped and the rows kept in order. |
| `StableSort.PairCompare` | src/Table.js:59-63 | The sort callback returns the row comparator's answer when it is non-zero. It returns 0 only for pairs with the same index. |
| `StableSort.Sort` | src/Table.js:57-65 | `stableSort` returns as many rows as it is given. Its meaning is stated by `SortIsPermutation`, `SortIsOrdered`, `SortIsStable` and `SortedUnique`. |
| `StableSort.GetComparatorIsTotalPreorder` | src/Table.js:51-55 | Every comparator `getComparator` returns is antisymmetric and transitive. |
| `StableSort.PrecedesTransitive` | src/Table.js:59-63 | The pair comparison with the index tie-break is transitive. |
| `StableSort.PrecedesTotal` | src/Table.js:59-63 | Of two pairs with different indices, one goes first. |
| `StableSort.Insert` | src/Table.js:59-63 | Inserting a pair adds exactly that pair to the multiset. |
| `StableSort.SortTagged` | src/Table.js:59-63 | The sort of the tagged pairs is a permutation of them. |
| `StableSort.InsertSorted` | src/Table.js:59-63 | Inserting into a sorted list keeps it sorted. |
| `StableSort.SortTaggedSorted` | src/Table.js:59-63 | The tagged rows come out strictly ordered by the comparator, with the index as tie-break. |
| `StableSort.SortTaggedDistinct` | src/Table.js:58-63 | Sorting keeps the index tags distinct. |
| `StableSort.SortedUnique` | src/Table.js:59-63 | Two sorted arrangements of the same pairs are equal, so the result does not depend on the engine's sort algorithm. |
| `StableSort.SortIsPermutation` | src/Table.js:57-65 | `stableSort` returns a permutation of its input. |
| `StableSort.OriginIsBijection` | src/Table.js:57-65 | Each output position holds the input row at a distinct original index. |
| `StableSort.SortIsOrdered` | src/Table.js:57-65 | For any total-preorder comparator, every earlier output row satisfies `comparator(x, y) <= 0` against every later one. |
| `StableSort.SortIsStable` | src/Table.js:58-63 | Rows that compare 0 keep their original relative order. An inversion of the original order happens only where the comparator is strictly negative. |
| `StableSort.SortAllLevelIsIdentity` | src/Table.js:58-63 | If every pair of rows compares 0, the output equals the input. |
| `StableSort.SortByEditInfoIsIdentity` | src/Table.js:78 | Sorting by the `editInfo` header, in either direction, returns the rows unchanged. |
| `StableSort.SortKeepsMembers` | src/Table.js:57-65 | A row is in the sorted output exactly when it is in the input. |
| `StableSort.TableSortIsStableSort` | src/Table.js:646 | For any header state, the sorted table is a permutation of the rows. Each earlier row ranks no later than each later one for that column and direction. Rows with equal values keep their input order. |
| `Search.LowerChar` | src/Table.js:346 | ASCII capitals map to their lower-case letter and other characters are unchanged. No capital remains. |
| `Search.Lower` | src/Table.js:346 | `toLowerCase` applied to each character of a string, keeping its length. |
| `Search.Includes` | src/Table.js:346 | `includes`: every string includes `""`, and a needle longer than the string is never found. `IncludesIsOccurrence` states its full meaning. |
| `Search.Matches` | src/Table.js:346 | The test inside the loop. An empty word matches every row. A match needs the name or the email to be at least as long as the word. |
| `Search.LowerIdempotent` | src/Table.js:346 | Lower-casing twice equals lower-casing once. |
| `Search.IncludesIsOccurrence` | src/Table.js:346 | `hay.includes(needle)` holds exactly when `needle` occurs at some index of `hay`. |
| `Search.IncludesEmpty` | src/Table.js:346 | Every string includes the empty string. |
| `Search.Filter` | src/Table.js:344-349 | The search never returns more rows than it was given. |
| `Search.FilterRows` | src/Table.js:343-351 | The `forEach` loop produces exactly the filter of `finalItems`. Every row it keeps is an input row that matches. |
| `Search.FilterIsSubsequence` | src/Table.js:344-349 | The result is the subsequence of input rows at increasing indices. An index is among them exactly when its row's lower-cased name or email includes the lower-cased word. Each kept row is unchanged. |
| `Search.FilterMembership` | src/Table.js:344-349 | A row is in the result if and only if it is in the input and matches. |
| `Search.FilterAppend` | src/Table.js:344-349 | Searching the fetched rows followed by the overlay equals searching each and concatenating. |
| `Search.FilterAllMatching` | src/Table.js:344-349 | If every row matches, the search keeps every row. |
| `Search.FilterEmptyWord` | src/Table.js:346 | An empty search word keeps every row. |
| `Search.FilterIdempotent` | src/Table.js:343-351 | Submitting the same search twice gives the same rows as submitting it once. |
| `Search.FilterIgnoresWordCase` | src/Table.js:346 | The search result does not depend on the case of the ASCII letters in the word. |
| `Selection.IndexOf` | src/Table.js:423 | `indexOf` returns -1 exactly when the id is absent. Otherwise it returns the first index that holds the id. |
| `Selection.Toggle` | src/Table.js:422-440 | If the id is absent, the new selection is the old one plus the id at the end. Otherwise it is the old one with the first occurrence removed and the rest in order, one shorter. |
| `Selection.ToggleFlipsMembership` | src/Table.js:422-440 | On a selection without repeats, a click flips the clicked id's membership, leaves every other id's membership alone and creates no repeats. |
| `Selection.ToggleTwiceRestores` | src/Table.js:426-431 | Clicking an unselected row twice restores the original selection. |
| `Selection.ToggleTwiceMovesToEnd` | src/Table.js:426-437 | On a selection without repeats, clicking a selected row twice moves its id to the end and keeps the other ids in order. |
| `Selection.HeaderChecked` | src/Table.js:94 | The header box is checked only when some row is selected and the number selected equals the row count. |
| `Selection.SelectAll` | src/Table.js:412-419 | When checked, the selection becomes the `clientId`s of `finalItems` in order. When unchecked, it becomes empty. |
| `Selection.SelectAllClickToggles` | src/Table.js:93-95 | A click on a fully selected header box (judged by count) clears the selection. Any other click selects every id. After that the box reads as checked, and a second click clears it. |
| `Paging.Slice` | src/Table.js:647 | `slice(start, end)` has `min(end, len) - start` elements, or none, and element `k` is `s[start + k]`. |
| `Paging.PageRows` | src/Table.js:646-647 | The current page holds at most `rowsPerPage` rows, all of them sorted rows. `PageRowsBounds` states which rows they are. |
| `Paging.PageRowsBounds` | src/Table.js:646-647 | A page holds at most `rowsPerPage` rows, namely `sorted[page*rowsPerPage + k]`. It is full while the rows last, the remainder on the last page, and empty beyond. |
| `Paging.FirstPagesArePrefix` | src/Table.js:646-647 | Pages `0..n-1` laid end to end are the first `n*rowsPerPage` sorted rows. |
| `Paging.PagesCoverRows` | src/Table.js:646-647 | Paging through every page shows every row exactly once, in sorted order. |
| `SortHeader.RequestSort` | src/Table.js:405-409 | `orderBy` becomes the clicked column. The order becomes `'desc'` if and only if the clicked column was already sorted `'asc'`. In every other case it becomes `'asc'`. |
| `SortHeader.RepeatedClicksAlternate` | src/Table.js:405-409 | After the first click on a column, each further click reverses the direction, and two more clicks return to the same state. |
| `Overlay.WithInput` | src/Table.js:493-495 | An input's `onChange` writes that input and leaves the other five unchanged. |
| `Overlay.NewRecord` | src/Table.js:304-312 | The appended record carries the counter as `clientId` and the six inputs as its fields. |
| `Overlay.OverlayIdsFresh` | src/Table.js:256 | Local rows numbered from 123123123 have distinct ids, all below `idCounter`. |
| `Overlay.AddKeepsOverlayIds` | src/Table.js:316-331 | Appending the counter's record and incrementing the counter keeps that numbering. |
| `Overlay.MergeRows` | src/Table.js:381-392 | The two push loops build the fetched rows followed by the local rows, in order. |
| `Overlay.MergedIdsUnique` | src/Table.js:381-392 | If the fetched ids are unique and outside the local range, the merged rows have unique ids. |
| `TableDisplay.TableState.constructor` | src/Table.js:232-256 | Sets the initial state: ascending by client name, nothing selected, page 0 of 5 rows, no rows, counter 123123123. |
| `TableDisplay.TableState.Load` | src/Table.js:263-267 | The first fetch sets both `items` and `finalItems` to its result and changes nothing else. |
| `TableDisplay.TableState.Refresh` | src/Table.js:376-392 | A refresh shows the fetched rows followed by the overlay and changes nothing else. |
| `TableDisplay.TableState.InputWord` | src/Table.js:355-361 | Typing refreshes the rows and stores the word. |
| `TableDisplay.TableState.ClearSearch` | src/Table.js:363-369 | Clearing refreshes the rows and empties the word. |
| `TableDisplay.TableState.Submit` | src/Table.js:343-353 | The shown rows become the filter of the previous shown rows by the stored word, and nothing else changes. |
| `TableDisplay.TableState.SetInput` | src/Table.js:493-495 | One add-form input takes the typed value. |
| `TableDisplay.TableState.ClearInputs` | src/Table.js:290-298 | All six inputs become empty. |
| `TableDisplay.TableState.AddRecord` | src/Table.js:301-340 | Appends one record whose id is the old counter, adds 1 to the counter, empties the inputs and refreshes. It keeps the overlay numbering invariant. |
| `TableDisplay.TableState.RequestSortBy` | src/Table.js:405-409 | Applies the header-click rules to the state. |
| `TableDisplay.TableState.SelectAllClick` | src/Table.js:412-419 | Sets `selected` to all ids of `finalItems` or to none. |
| `TableDisplay.TableState.Click` | src/Table.js:422-440 | Toggles one id in `selected` as `Toggle` describes. |
| `TableDisplay.TableState.ChangePage` | src/Table.js:442-444 | `page` becomes the requested page. |
| `TableDisplay.TableState.ChangeRowsPerPage` | src/Table.js:446-449 | Sets the page size and always resets `page` to 0. |
| `TableDisplay.TableState.IsSelected` | src/Table.js:451 | A row is selected exactly when its id is in `selected`. |
| `TableDisplay.TableState.DisplayedRows` | src/Table.js:646-647 | The body shows the current page of `finalItems` sorted by `(order, orderBy)`. That is at most `rowsPerPage` rows, each one of `finalItems`. |

## Left out

- Network access. The fetches in the mount effect and in `refreshData` are not modelled, nor are the `isLoaded` and `error` flags or the loading and error screens. A successful fetch result is a parameter of `Load`, `Refresh`, `InputWord`, `ClearSearch` and `AddRecord`. The failure path only sets the error flag, which blocks the whole view.
- TableDisplay.TableState.Refresh: uses the current `tempData` and the fetched result. In the source the response callback reads the `items` and `tempData` captured when `refreshData` was called. It pushes the previously held `items`, not `result`, and a record added in the same handler shows only at the next refresh. This depends on React's state timing.
- Overlapping refreshes whose responses arrive out of order are not modelled. The model applies each result at once, in call order.
- JSX, Material-UI components, styles, and the rendering of the header and toolbar are not modelled. `src/App.js` is not part of this model.
- The `activePage` counter that shows and hides the add form is not modelled.
- The HTML `required` checks on the form inputs and the search box are done by the browser, not by this code. The model accepts any input.
- Search.Lower: lower-cases the ASCII letters only, where `toLowerCase` applies full Unicode case mapping.
- Comparator.StrLess: compares Dafny characters (Unicode scalar values), while JavaScript compares UTF-16 code units. The two orders differ only when characters above U+FFFF are compared with characters in U+E000 to U+FFFF.
- TableDisplay.TableState.ChangeRowsPerPage: takes the page size as a `nat`, not as the string that `parseInt` reads. The control offers only 5, 10 and 25.
- The rows the API returns are taken to have exactly the seven string and integer fields of `Client`. A missing or `null` name or email would make `toLowerCase` throw, and extra fields are dropped by `createData`.
- TableDisplay.TableState.constructor: starts the six add-form inputs as `""`. In the source they start as empty arrays (`src/Table.js:248-253`). The website input is not `required`, so an add that never touches it stores `clientWebsite: []`. That array converts to `""` under `<` and `>`, and the search never reads the website.
- The search word's initial value is an empty array, not a string. The model starts from `""`. The box is `required`, so the form cannot be submitted before the user types.
- Whether "select all" is checked is decided by comparing counts (`numSelected === rowCount`), as in the source, not by comparing sets of ids.
