# CustomerTable state controller, in Dafny

This project models the interaction core of a customer data table: a
sortable, searchable, paginated, multi-select table over a fixed list of
customer records. The component keeps six state variables: the working
rows, the sort direction and column shown by the header, the list of
selected names, the page index and the page size. Five event handlers move
that state from one value to the next:

- a click on a column header sorts the rows;
- typing in the search box filters the loaded records;
- the header checkbox selects or clears all rows;
- a click on a row toggles its name in the selection;
- the page controls change the page and the page size.

The header checkbox flags and the rows on the current page are derived
from that state.

Files:

- `js.dfy` (module `Js`): the JavaScript built-ins the handlers use, written
  out. These are `<` on strings, `toLowerCase` (ASCII letters),
  `includes`, `indexOf`, `slice` with its negative indices and `filter`.
  Each comes with its properties or a reference definition. The module
  also has `toUpperCase`, which no handler calls. It is used only to state
  that the search ignores case (`LowerOfUpper`, `SearchIgnoresCase`).
- `customers.dfy` (module `Customers`): the record type, the seven column
  ids, the status keys of the colour table, and `rows.map(n => n.name)`.
- `sorting.dfy` (module `Sorting`): the comparator of the sort handler and a
  sort that honours it. It also proves that every sort honouring that
  comparator yields the same sequence of column values.
- `search.dfy` (module `Search`): the keyword filter over name, country and
  agent.
- `selection.dfy` (module `Selection`): select-all, toggle-one and the two
  header flags.
- `paging.dfy` (module `Paging`): the page window.
- `table.dfy` (module `Table`): class `CustomerTable`. Its six mutable
  fields are the component's state variables, and it has one method per
  handler. The loaded records are a constructor parameter. `Valid()` is
  kept by every handler. It says three things: every loaded record has a
  known status, the working rows are a sub-multiset of the loaded records,
  and the page size is one of the options.

Behaviour kept as the code has it:

- A click on the active column while the header shows ascending sorts the
  rows ascending, but sets the header to descending. Any other click sorts
  descending and sets the header to ascending. So the row order is the
  opposite of the direction the header shows.
- A search always filters the loaded records, never the current rows, so
  any earlier sort is lost. It leaves the sort label, the selection and the
  page index as they were.
- The page index is never clamped. A page past the end shows no rows.
- The header flags compare counts only.

Behaviour a reader might not expect, kept as the code has it:

- Clicking a name twice restores the exact list when the name was not
  selected, or was on the list once as the last entry. A name on the list
  once elsewhere is removed and then re-appended at the end
  (`ToggleTwicePresent`, `ToggleTwiceLast`), so only the set of names is
  restored. This holds whether or not other names repeat. A name on the
  list twice, which select-all produces when two rows share a name, loses
  one copy per click wherever the copies sit, so two clicks remove it
  altogether and shorten the list by two (`ToggleTwiceRepeated`).
- The selection is an ordered list, not a set.
- "Half ticked exactly when a non-empty proper part is selected" holds only
  when names are unique and every selected name belongs to a current row
  (`FlagsMeanSubsets`). Otherwise the counts can mislead. For example, a
  selection made before a search narrowed the rows can make the header
  show ticked while no shown row is selected (`FlagsCountOnly`).

## Model

| member | source | states |
|---|---|---|
| `Js.StrLess` | src/components/CustomerTable.tsx:59-63 | the definition models `<` on strings; a string is never less than itself, and nothing is less than the empty string. Its order properties are the lemmas below |
| `Js.StrLessIffLessAt` | src/components/CustomerTable.tsx:59-63 | string `<` holds exactly when the strings share a prefix after which the first ends or has the smaller character |
| `Js.StrLessIrreflexive` | src/components/CustomerTable.tsx:59-65 | no string is less than itself, so the comparator returns 0 for equal values |
| `Js.StrLessAsymmetric` | src/components/CustomerTable.tsx:59-65 | `a < b` and `b < a` never hold together |
| `Js.StrLessTotal` | src/components/CustomerTable.tsx:59-65 | of two different strings one is less than the other |
| `Js.StrLessTransitive` | src/components/CustomerTable.tsx:59-65 | string `<` is transitive |
| `Js.StrLessEqTransitive` | src/components/CustomerTable.tsx:59-65 | "not greater" is transitive, as a consistent comparator needs |
| `Js.StrLessEqAntisymmetric` | src/components/CustomerTable.tsx:59-65 | two strings neither of which is less than the other are equal |
| `Js.Lower` | src/components/CustomerTable.tsx:71-76 | lower-casing keeps the length and folds each character on its own |
| `Js.LowerOfUpper` | src/components/CustomerTable.tsx:71 | lower-casing the upper-cased text gives the lower-cased text |
| `Js.Upper` | src/components/CustomerTable.tsx:71 | upper-casing keeps the length and folds each character on its own; no handler calls it, it serves only to state that the search ignores case (`LowerOfUpper`, `SearchIgnoresCase`) |
| `Js.Includes` | src/components/CustomerTable.tsx:74-76 | the definition models `includes`; a needle longer than the text is never found and the empty needle always is. `IncludesIffOccurs` ties it to a reference definition |
| `Js.IncludesIffOccurs` | src/components/CustomerTable.tsx:74-76 | `includes` holds exactly when the needle occurs at some position of the haystack |
| `Js.IncludesEmpty` | src/components/CustomerTable.tsx:74-76 | every string includes the empty string |
| `Js.IndexOf` | src/components/CustomerTable.tsx:92 | the result is -1 exactly when the name is absent, otherwise the position of its first occurrence |
| `Js.Slice` | src/components/CustomerTable.tsx:98-104 | `slice(start, end)`: as many elements as the resolved end exceeds the resolved start, read from the resolved start |
| `Js.SliceFrom` | src/components/CustomerTable.tsx:98 | `slice(start)`: the suffix from `start`, or the last `-start` elements when `start` is negative |
| `Js.RelativeIndex` | src/components/CustomerTable.tsx:98-104 | a `slice` argument counts from the end when negative and is clamped to the length |
| `Js.Filter` | src/components/CustomerTable.tsx:72-78 | the definition models `filter`; the result is no longer than the list and holds only accepted elements of it. `FilterCounts`, `FilterIsSubsequence` and `FilterUnique` pin it down |
| `Js.FilterCounts` | src/components/CustomerTable.tsx:72-78 | each element is kept exactly as often as it occurs when the predicate accepts it, and dropped when it does not |
| `Js.FilterCons` | src/components/CustomerTable.tsx:72-78 | the filter of a list with a first element is that element when accepted, then the filter of the rest |
| `Js.FilterKeepsAll` | src/components/CustomerTable.tsx:72-78 | nothing is dropped when the predicate accepts every element |
| `Js.SubsequenceMultiset` | src/components/CustomerTable.tsx:72-78 | a subsequence holds no element more often than the whole |
| `Js.SubsequenceSkip` | src/components/CustomerTable.tsx:72-78 | a subsequence of the tail is a subsequence of the whole |
| `Js.SubsequenceTail` | src/components/CustomerTable.tsx:72-78 | dropping the first element of a subsequence keeps it a subsequence |
| `Js.FilterIsSubsequence` | src/components/CustomerTable.tsx:72-78 | the kept elements stay in their original order |
| `Js.FilterUniqueHead` | src/components/CustomerTable.tsx:72-78 | a subsequence with the filter's counts starts with the first element when that one is accepted |
| `Js.FilterUniqueKept` | src/components/CustomerTable.tsx:72-78 | after an accepted first element, the rest of such a subsequence has the counts of the rest |
| `Js.FilterUniqueDropped` | src/components/CustomerTable.tsx:72-78 | a rejected first element is skipped by such a subsequence |
| `Js.KeptCountsTail` | src/components/CustomerTable.tsx:72-78 | dropping a common first element from both lists keeps the filter's counts |
| `Js.FilterUnique` | src/components/CustomerTable.tsx:72-78 | the filter result is the only subsequence holding every accepted element as often as the list does and nothing else |
| `Customers.Get` | src/components/CustomerTable.tsx:59 | `a[property]` reads one of the seven string fields named by the column id |
| `Customers.GetIgnoresId` | src/components/CustomerTable.tsx:59 | a row's `id` never affects a column value |
| `Customers.Names` | src/components/CustomerTable.tsx:84 | one name per row, in row order |
| `Sorting.Compare` | src/components/CustomerTable.tsx:58-66 | the comparator returns 0 exactly for equal column values; with `isAsc` it puts smaller values first, otherwise larger ones |
| `Sorting.CompareAntisymmetric` | src/components/CustomerTable.tsx:58-66 | swapping the two rows negates the comparator's answer |
| `Sorting.CompareFlip` | src/components/CustomerTable.tsx:58-66 | flipping `isAsc` is the same as swapping the rows |
| `Sorting.CompareTransitive` | src/components/CustomerTable.tsx:58-66 | "comes no later than" is transitive |
| `Sorting.SortedByMeaning` | src/components/CustomerTable.tsx:54-66 | a result in comparator order is non-decreasing in the column when `isAsc`, non-increasing otherwise |
| `Sorting.SortedTail` | src/components/CustomerTable.tsx:58 | the rows after the first of a sorted list are sorted |
| `Sorting.PrependSorted` | src/components/CustomerTable.tsx:58 | a row that may precede every row of a sorted list can go in front |
| `Sorting.Insert` | src/components/CustomerTable.tsx:58 | inserting into a sorted list adds exactly that row and keeps it sorted |
| `Sorting.InsertFront` | src/components/CustomerTable.tsx:58 | a row that may precede the first row may precede them all |
| `Sorting.InsertBehind` | src/components/CustomerTable.tsx:58 | a first row that precedes the inserted row stays first |
| `Sorting.SortRows` | src/components/CustomerTable.tsx:58-66 | the sorted rows are a permutation of the rows in comparator order |
| `Sorting.Keys` | src/components/CustomerTable.tsx:59 | one column value per row, in row order |
| `Sorting.KeysAppend` | src/components/CustomerTable.tsx:59 | the column values of joined row lists are the joined values |
| `Sorting.KeysOfPermutation` | src/components/CustomerTable.tsx:58 | reordering the rows reorders their column values alike |
| `Sorting.InOrderSameHead` | src/components/CustomerTable.tsx:58-66 | two orderings of the same values in one direction start alike |
| `Sorting.InOrderTail` | src/components/CustomerTable.tsx:58-66 | the tail of an ordered list of values is ordered |
| `Sorting.InOrderUnique` | src/components/CustomerTable.tsx:58-66 | two orderings of the same values in the same direction are equal |
| `Sorting.SortedByKeysInOrder` | src/components/CustomerTable.tsx:58-66 | rows in comparator order have their column values in order |
| `Sorting.SortedPermutationsAgree` | src/components/CustomerTable.tsx:58-66 | any two sorts of the same rows by one comparator show the same column values in the same order; only ties may differ |
| `Sorting.Reverse` | src/components/CustomerTable.tsx:53-67 | the reversed list holds element `n-1-i` at position `i` |
| `Sorting.ReverseMultiset` | src/components/CustomerTable.tsx:53-67 | reversing keeps the same rows |
| `Sorting.ReverseSorted` | src/components/CustomerTable.tsx:53-67 | rows sorted one way, read backwards, are sorted the other way |
| `Sorting.ResortReverses` | src/components/CustomerTable.tsx:53-67 | sorting one way and then the other gives exactly reversed column values |
| `Sorting.KeysReverse` | src/components/CustomerTable.tsx:53-67 | the column values of reversed rows are the reversed column values |
| `Sorting.SortPairTie` | src/components/CustomerTable.tsx:58-66 | two rows with equal values in the column keep their order: the sort is stable |
| `Sorting.InsertBeforeOne` | src/components/CustomerTable.tsx:58-66 | a row that may precede the other one is inserted in front of it |
| `Sorting.SortSingle` | src/components/CustomerTable.tsx:58 | a single row sorts to itself |
| `Sorting.InsertBehindOne` | src/components/CustomerTable.tsx:58-66 | a row the comparator puts after the other one is inserted behind it |
| `Sorting.SortPair` | src/components/CustomerTable.tsx:58-66 | two rows the comparator puts the other way round are swapped by the sort |
| `Sorting.SortExample` | src/components/CustomerTable.tsx:53-67 | Bob, Amy sorted with `isAsc` gives Amy, Bob, and without it gives Bob, Amy |
| `Search.Matches` | src/components/CustomerTable.tsx:73-77 | the definition models the row test: the lower-cased name, country or agent includes the text; empty text matches every row, and a match needs a field at least as long as the text |
| `Search.SearchRows` | src/components/CustomerTable.tsx:70-79 | the definition models the search; the result is no longer than the data and holds only loaded rows that match. `SearchCounts`, `SearchWithinData` and `SearchIsMatchingSubsequence` pin it down |
| `Search.SearchEmptyShowsAll` | src/components/CustomerTable.tsx:70-79 | empty text shows every loaded row in load order |
| `Search.SearchIgnoresCase` | src/components/CustomerTable.tsx:71 | upper-cased text finds the same rows |
| `Search.SearchCounts` | src/components/CustomerTable.tsx:72-78 | a row is shown exactly when it is loaded and its lower-cased name, country or agent includes the lower-cased text, and as often as it was loaded |
| `Search.SearchIsMatchingSubsequence` | src/components/CustomerTable.tsx:70-79 | the search result is the only subsequence of the loaded rows holding every matching row as often as loaded and nothing else |
| `Search.SearchWithinData` | src/components/CustomerTable.tsx:70-79 | the search result is a subsequence and a sub-multiset of the loaded rows |
| `Search.SearchExample` | src/components/CustomerTable.tsx:70-80 | "am" over Amy, Bob, Pam keeps Amy and Pam |
| `Search.LowerAm` | src/components/CustomerTable.tsx:71 | lower-casing "am" leaves it as it is |
| `Search.FilterThree` | src/components/CustomerTable.tsx:72-78 | of three rows of which the middle one is rejected, the filter keeps the outer two |
| `Search.ExampleMatches` | src/components/CustomerTable.tsx:74 | rows named Amy and Pam match "am" |
| `Search.ExampleMisses` | src/components/CustomerTable.tsx:74-76 | Bob from Peru with agent Lee does not match "am" |
| `Selection.SelectAll` | src/components/CustomerTable.tsx:82-89 | ticked: the names of all current rows in row order; unticked: empty |
| `Selection.Toggle` | src/components/CustomerTable.tsx:91-109 | an absent name is appended; a present one is cut out at its first position |
| `Selection.CutOut` | src/components/CustomerTable.tsx:97-106 | the three `slice` cases of the deselecting branch each give the list without entry `i`; the final fallback gives the empty list |
| `Selection.ToggleTwiceAbsent` | src/components/CustomerTable.tsx:91-109 | toggling an absent name twice restores the exact list |
| `Selection.CutRemoves` | src/components/CustomerTable.tsx:98-104 | cutting an entry out of a list without repeats removes that name altogether |
| `Selection.CutCount` | src/components/CustomerTable.tsx:97-106 | cutting out entry `i` takes one copy of it out of the list's multiset |
| `Selection.ToggleOffCount` | src/components/CustomerTable.tsx:91-109 | deselecting a name takes exactly one copy of it off the list and shortens it by one |
| `Selection.ToggleTwicePresent` | src/components/CustomerTable.tsx:91-109 | two clicks on a name that is on the list once, other names repeated or not, cut it out and append it at the end |
| `Selection.ToggleTwiceLast` | src/components/CustomerTable.tsx:91-109 | two clicks on a name that is on the list once, other names repeated or not, restore the exact list exactly when it is the last entry; otherwise only the set of names comes back |
| `Selection.MoveToEnd` | src/components/CustomerTable.tsx:91-109 | moving an entry whose value occurs once to the end changes the list exactly when it was not last |
| `Selection.TwoCopies` | src/components/CustomerTable.tsx:91-109 | a value at two positions of a list occurs in it at least twice |
| `Selection.ToggleTwiceRepeated` | src/components/CustomerTable.tsx:91-109 | a name on the list twice, anywhere among other names (as select-all at :84 leaves it when two rows share a name), keeps one copy after one click and is gone after two, the list two shorter |
| `Selection.ToggleMembership` | src/components/CustomerTable.tsx:91-109 | with no repeats, a toggle flips the membership of that name only |
| `Selection.CutKeepsNoDup` | src/components/CustomerTable.tsx:98-104 | cutting out one entry keeps a list free of repeats |
| `Selection.AppendKeepsNoDup` | src/components/CustomerTable.tsx:95-96 | appending a new name keeps a list free of repeats |
| `Selection.ToggleKeepsNoDup` | src/components/CustomerTable.tsx:91-109 | toggling never introduces a repeated name |
| `Selection.FlagsExclusive` | src/components/CustomerTable.tsx:47-50 | the two header flags never hold together, and neither holds with nothing selected |
| `Selection.FlagsAfterSelectAll` | src/components/CustomerTable.tsx:47-50 | after select-all the header is never half ticked, and is ticked exactly when ticking over a non-empty table |
| `Selection.ElemsNoDupSize` | src/components/CustomerTable.tsx:47-48 | a list without repeats has as many distinct names as entries |
| `Selection.FlagsMeanSubsets` | src/components/CustomerTable.tsx:47-50 | with unique names drawn from the rows, half ticked means a non-empty proper subset and ticked means all |
| `Selection.FlagsCountOnly` | src/components/CustomerTable.tsx:47-50 | a stale name can make the header ticked while no shown row is selected |
| `Paging.Window` | src/components/CustomerTable.tsx:174 | the page shows `min(size, max(0, count - page*size))` rows, the ones from `page*size` on |
| `Paging.WindowBounds` | src/components/CustomerTable.tsx:174 | a page holds at most `size` rows, is empty past the end, and is full when the rows reach its end |
| `Paging.WindowIsSlice` | src/components/CustomerTable.tsx:174 | the page is the contiguous run of rows from its first row, cut at the end |
| `Paging.RowOnItsPage` | src/components/CustomerTable.tsx:174 | row `k` is entry `k % size` of page `k / size` |
| `Paging.WindowExample` | src/components/CustomerTable.tsx:174 | 12 rows, size 5, page 2 shows rows 10 and 11 |
| `Table.CustomerTable.constructor` | src/components/CustomerTable.tsx:40-45 | the initial state: loaded rows, ascending by name, nothing selected, page 0 of 10 |
| `Table.CustomerTable.HandleRequestSort` | src/components/CustomerTable.tsx:53-68 | the label turns descending exactly when the same column was ascending; the rows are a permutation, ascending under a descending label and descending under an ascending one |
| `Table.CustomerTable.HandleSearch` | src/components/CustomerTable.tsx:70-80 | the rows become the filtered loaded rows whatever came before; the label, selection and page are unchanged |
| `Table.CustomerTable.HandleSelectAllClick` | src/components/CustomerTable.tsx:82-89 | the selection becomes all current names or nothing; the rest is unchanged |
| `Table.CustomerTable.HandleClick` | src/components/CustomerTable.tsx:91-109 | the selection is toggled at that name; the rest is unchanged |
| `Table.CustomerTable.HandleChangePage` | src/components/CustomerTable.tsx:112-114 | the page index becomes the one asked for |
| `Table.CustomerTable.HandleChangeRowsPerPage` | src/components/CustomerTable.tsx:116-119 | the page size becomes the one picked and the page index 0 |
| `Table.CustomerTable.IsIndeterminate` | src/components/CustomerTable.tsx:47-49 | half ticked excludes ticked, and is off with nothing selected |
| `Table.CustomerTable.IsChecked` | src/components/CustomerTable.tsx:47-50 | ticked needs at least one row, and is off with nothing selected |
| `Table.CustomerTable.IsItemSelected` | src/components/CustomerTable.tsx:175 | a row's box is ticked exactly when its name is selected |
| `Table.CustomerTable.VisibleRows` | src/components/CustomerTable.tsx:174-208 | the page holds at most a page size of loaded rows, each with a status the colour table has |
| `Table.ClickHeaderTwice` | src/components/CustomerTable.tsx:53-68 | two clicks on one header show that column's values in exactly reversed order |
| `Table.SortScenario` | src/components/CustomerTable.tsx:53-68 | rows Bob, Amy under the first render's ascending Name label: the first click on Name shows Amy, Bob and sets the label to descending; the second shows Bob, Amy under an ascending label |

## Left out

- Rendering: the JSX tree and the component library around it (theme,
  table cells, checkboxes, chips, progress bars, text field, pagination
  control) are presentation only.
- The colour values of the status table. Only its five keys are kept, as a
  condition on the loaded records that `Valid()` carries.
- The activity progress bar and its `parseInt` of the activity text.
- The `parseInt` of the page-size event value. The page size is taken as
  one of the offered options 5, 10 and 25.
- Event objects. Each handler takes the plain value the event carries: a
  column, the search text, the checkbox state, the row name, the page
  number or the page size.
- React's batching of state updates and re-render scheduling. Each handler
  is one atomic step that reads the state from before the event.
- The data module that supplies the loaded records is not part of this
  model. The records are the constructor's parameter.
- `src/app/page.tsx` only renders the table inside a styled box and has no
  logic.
- The `id` field as a sort key. The header only ever sorts by the seven
  column ids, all of them string fields.
- `Js.Lower`, `Js.Upper`: fold ASCII letters only. Full Unicode case mapping,
  which can change a string's length, is not modelled.
- `Search.SearchIgnoresCase`: rests on the ASCII-only fold. In the program,
  `"ß".toUpperCase()` is `"SS"` and `"ſ".toUpperCase()` is `"S"`, so a text
  and its upper-cased form can find different rows; the lemma does not
  cover such characters.
- `Js.StrLess`: compares characters as Unicode scalar values. JavaScript
  compares UTF-16 code units, and the two orders differ only for characters
  outside the Basic Multilingual Plane.
- `Sorting.SortRows`: the browser's sorting algorithm is unknown, so the
  model uses an insertion sort that honours the same comparator.
  `SortedPermutationsAgree` shows that any such sort gives the same column
  values in the same order. The insertion sort is stable: a row goes in
  front of the first later row it may precede, so rows with equal values
  keep their order (`SortPairTie` shows this for two rows). `Array.prototype.sort`
  must be stable since ECMAScript 2019, and a stable sort by a consistent
  comparator has only one result, so `HandleRequestSort`'s `rows ==
  SortRows(...)` is the order a conforming browser produces. Stability for
  lists longer than two is argued here, not proved.
- `Table.CustomerTable.HandleChangePage`: the page number is taken as
  non-negative, as the page control only produces such numbers. A negative
  page, which `slice` would read from the end, is not modelled.
- `Selection.Toggle`: the handler's final fallback, which leaves the list
  empty when the index is below -1, is kept but cannot be reached.
