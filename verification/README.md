# data-view: the table's filter, sort and sort-toggle, in Dafny

This project models the data-view pipeline of the `Table` React component
(`src/component/Table.jsx`). The component fetches a list of rows, keeps them in
`data`, and renders `filteeData()`. That is the rows whose `symbol` includes the
search text, sorted by `sortData` under the current `(orderBy, order)` state. A
click on a column header (`handleSort`) updates that state. Everything here is
pure. The React hooks become plain values and the fetch is left out.

Modules, one per concept:

- `JsStrings` (`js_strings.dfy`) models ECMAScript strings as sequences of UTF-16
  code units. It defines `includes` (`Includes`) and the relational `<` on two
  strings (`Less`). `Less` is proved equal to the IsLessThan abstract operation of
  ECMA-262 and to be a strict total order.
- `Records` (`records.dfy`) defines the row record with its five string fields, the
  column names, and property access `r[column]`.
- `SortToggle` (`sort_toggle.dfy`) holds the `(orderBy, order)` state, its initial
  value `("start_date", "asc")`, and `handleSort`.
- `Comparator` (`comparator.dfy`) is the comparison function passed to
  `Array.prototype.sort`. It subtracts chronological values for the date columns
  and uses `<`/`>` for the others. Its contract gives the meaning of its sign in
  terms of an independent key order, and the lemmas prove it is a consistent
  comparator.
- `StableSort` (`stable_sort.dfy`) is `sortData`, a stable sort of a copy. It is
  proved to return a permutation that is sorted and stable. It is also the only
  sequence with those properties, so every engine's stable `sort` produces it. The
  direction is a flipped comparison: descending is not the reverse of ascending.
- `SymbolFilter` (`symbol_filter.dfy`) is the filter `row.symbol.includes(search)`.
  It returns an order-preserving subsequence that keeps exactly the matching rows,
  and the match is case-sensitive.
- `DataView` (`data_view.dfy`) composes the two into the rendered rows, with the
  search-box and header-click events and a two-row worked example.

`new Date(text)` becomes a parameter `dateKey: JsString -> int`, which gives a
date string its chronological value. Every property is proved for every such
function.

## Model

| member | source | states |
|---|---|---|
| `SortToggle.FirstClickFromInitial` | src/component/Table.jsx:7-8 | the table starts at `("start_date", "asc")`, so a first click on "Start Date" gives `("start_date", "desc")` and a first click on any other header gives that column ascending |
| `SortToggle.Clickable` | src/component/Table.jsx:98-125 | a header cell has a click handler exactly for symbol, timeframe, start date and end date; the "File" cell has none |
| `SortToggle.HandleSort` | src/component/Table.jsx:27-31 | the clicked column always becomes the sort column |
| `SortToggle.HandleSortFlipsAscending` | src/component/Table.jsx:27-31 | from `(c, asc)`, clicking `c` gives `(c, desc)` with the column unchanged |
| `SortToggle.HandleSortResets` | src/component/Table.jsx:27-31 | clicking another column, or the current one while descending, gives `(column, asc)` |
| `SortToggle.HandleSortDescending` | src/component/Table.jsx:28-29 | the new direction is descending if and only if the current column was clicked while ascending |
| `SortToggle.HandleSortTwice` | src/component/Table.jsx:27-31 | clicking the current column twice restores the original `(orderBy, order)` |
| `SortToggle.Replay` | src/component/Table.jsx:27-31 | after a non-empty click sequence the sort column is the last column clicked; no clicks leaves the state alone |
| `SortToggle.ReachableStatesAreClickable` | src/component/Table.jsx:98-125 | every state reachable from the initial `("start_date", "asc")` sorts by symbol, timeframe or a date |
| `Records.Field` | src/component/Table.jsx:36-42 | `a[orderBy]` is one of the row's five string properties, and a date property for the date columns |
| `Records.FieldReadsNamedProperty` | src/component/Table.jsx:36-42 | `a[orderBy]` is the row's property with the name the column holds (`"start_date"` reads the start date, `"end_date"` the end date, and so on), looked up in the row as a name-to-value map |
| `JsStrings.IncludesFrom` | src/component/Table.jsx:49 | the scan from index `from` answers true exactly when the search text occurs at some index at or after `from` |
| `JsStrings.Includes` | src/component/Table.jsx:49 | `s.includes(t)` is true exactly when `t` occurs in `s` as a contiguous, case-sensitive run of code units |
| `JsStrings.IncludesEmpty` | src/component/Table.jsx:49 | every string includes the empty search text |
| `JsStrings.Less` | src/component/Table.jsx:43-44 | `valueA < valueB` on two strings equals ECMA-262's IsLessThan: a prefix check, then the first differing code unit |
| `JsStrings.LessIrreflexive` | src/component/Table.jsx:43-44 | no string is less than itself |
| `JsStrings.LessAsymmetric` | src/component/Table.jsx:43-44 | `a < b` and `b < a` never hold together |
| `JsStrings.LessTransitive` | src/component/Table.jsx:43-44 | `<` on strings is transitive |
| `JsStrings.LessTrichotomy` | src/component/Table.jsx:43-44 | two different strings are always ordered one way or the other |
| `Comparator.Compare` | src/component/Table.jsx:34-46 | the comparator is non-positive exactly when the rows are in key order for the direction: chronological for dates, string order otherwise. It is zero exactly when the keys are equal |
| `Comparator.CompareReflexive` | src/component/Table.jsx:35-45 | a row compares equal to itself |
| `Comparator.CompareAntisymmetric` | src/component/Table.jsx:35-45 | swapping the arguments flips the comparator's sign and keeps ties as ties |
| `Comparator.CompareTransitive` | src/component/Table.jsx:35-45 | "compares at most equal" is transitive, so the comparator is consistent as `sort` requires |
| `Comparator.DescendingSwapsArguments` | src/component/Table.jsx:35-45 | the descending comparator is the ascending one with its arguments swapped |
| `StableSort.Insert` | src/component/Table.jsx:34 | inserting a row adds exactly that row to the multiset of rows |
| `StableSort.SortData` | src/component/Table.jsx:33-47 | `sortData` returns a permutation of its input |
| `StableSort.InsertSorted` | src/component/Table.jsx:34 | inserting into a sorted sequence keeps it sorted |
| `StableSort.SortDataSorted` | src/component/Table.jsx:33-47 | every earlier output row compares at most equal to every later one |
| `StableSort.SortDataOrdered` | src/component/Table.jsx:35-45 | output keys are non-decreasing when ascending and non-increasing when descending |
| `StableSort.InsertPosition` | src/component/Table.jsx:34 | an inserted row goes in at one position of the sorted rows: behind exactly the rows that compare strictly below it, in front of the first row that does not |
| `StableSort.InsertTies` | src/component/Table.jsx:34 | an inserted row goes in front of every row it ties with, and every other tie group is unchanged |
| `StableSort.SortDataStable` | src/component/Table.jsx:34-46 | rows whose comparison is 0 keep their relative input order |
| `StableSort.SortDataCorrect` | src/component/Table.jsx:33-47 | `sortData` returns a sorted, stable permutation of its input |
| `StableSort.SortedStableUnique` | src/component/Table.jsx:34 | two sorted sequences with the same tie groups are equal |
| `StableSort.SortedStableIsSortData` | src/component/Table.jsx:34 | any sorted, stable rearrangement equals `sortData`'s output, so the engine's sort algorithm does not matter |
| `StableSort.SortDataIdempotent` | src/component/Table.jsx:33-47 | sorting an already sorted table changes nothing |
| `StableSort.TiesWithEitherDirection` | src/component/Table.jsx:35-45 | ascending and descending group the same rows as ties |
| `StableSort.SortDescendingIsReversedAscending` | src/component/Table.jsx:35-45 | descending equals the reverse of the ascending sort of the reversed input, so ties keep input order both ways |
| `StableSort.DescendingIsNotReversedOutput` | src/component/Table.jsx:38 | two rows with the same start date stay in input order when descending, which reversing the ascending output would not give |
| `SymbolFilter.FilterBySymbol` | src/component/Table.jsx:49 | the result is an order-preserving subsequence. It holds exactly the rows whose symbol contains the search text, each as often as in the input |
| `SymbolFilter.FilterEmptySearch` | src/component/Table.jsx:49 | an empty search returns the rows unchanged |
| `SymbolFilter.FilterIdempotent` | src/component/Table.jsx:49 | filtering twice by the same text equals filtering once |
| `SymbolFilter.FilterIsCaseSensitive` | src/component/Table.jsx:49 | "AAA" is not kept by the search "aa" |
| `DataView.VisibleRows` | src/component/Table.jsx:48-51 | the rendered rows are exactly the matching rows with their multiplicities, sorted, and stable with respect to the filtered order |
| `DataView.Fresh` | src/component/Table.jsx:6-9 | a table that has received its rows starts with an empty search and sorts by start date ascending |
| `DataView.TypeSearch` | src/component/Table.jsx:77 | typing sets the search text to the input's value and changes neither the rows nor the sort state |
| `DataView.ClickHeader` | src/component/Table.jsx:100-120 | a header click sorts by that column, descending exactly when it was the current column and ascending, and leaves the rows and the search alone |
| `DataView.Render` | src/component/Table.jsx:48-51 | the rows rendered at `:131` are exactly the fetched rows whose symbol includes the search, each as often as fetched, sorted by the current column and direction, with tied rows in fetch order |
| `DataView.FreshTableShowsAllRows` | src/component/Table.jsx:6-9 | a table with the initial state (empty search, `start_date` ascending) shows every row, sorted by start date ascending |
| `DataView.ClearingSearchShowsAllRows` | src/component/Table.jsx:77 | typing an empty search shows every row, sorted by the current state |
| `DataView.ClickHeaderResorts` | src/component/Table.jsx:100-120 | a header click shows the same rows, now sorted by the new sort state |
| `DataView.ClickTwiceRestoresRows` | src/component/Table.jsx:27-31 | clicking the current header twice renders the same rows again |
| `DataView.FilterThenSortIsSortThenFilter` | src/component/Table.jsx:48-51 | filtering then sorting gives the same rows as sorting then filtering |
| `DataView.ExampleSortedByStartDate` | src/component/Table.jsx:35-38 | for "AAA" dated after "BBB", ascending shows "BBB" first and descending shows "AAA" first |
| `DataView.ExampleFilter` | src/component/Table.jsx:49 | of the example symbols "AAA" and "BBB", only "AAA" includes "AA" |
| `DataView.ExampleSearch` | src/component/Table.jsx:49 | of the example rows "AAA" and "BBB", the search "AA" keeps only "AAA" whatever the sort state |

## Left out

- The fetch, the `loading` flag and the mount effect (`src/component/Table.jsx:12-25`, `:52-54`) are left out. They are network I/O and asynchronous React state. The model starts from the rows the fetch delivered.
- The `useMemo` call (`src/component/Table.jsx:56-61`) is left out. Its second argument `sortData[(data, search)]` is a comma expression, so it is the property lookup `sortData[search]` on an arrow function, and React takes it as the dependency list. For most search texts that lookup is `undefined` and the rows are recomputed on every render.
- `DataView.Render`: computes `sortData(filter(data))` for every search text, which the real view does not. When the search text names a property of a function object, such as "length", "name", "toString", "call", "apply", "hasOwnProperty" or "__proto__", the lookup yields a value and React compares it instead of a dependency list, so the rows can stay stale after a header click or when `data` arrives. For "caller" or "arguments" the lookup throws a TypeError and the render fails. React's memoisation is outside this model.
- `Records.Field`: its contract only bounds the lookup to the row's own properties. Which property each column reads is stated by `Records.FieldReadsNamedProperty`, kept out of the contract because it would enter every comparator proof.
- Date parsing by `new Date(text)` is left out. The model takes it as the parameter `dateKey`, and every property holds for every such function.
- Unparseable dates are left out. They make the subtraction NaN, which `sort` reads as 0, so the comparator is inconsistent and the order is implementation-defined. For the same reason the model uses exact integers for the subtraction: only its sign matters.
- Rows without a `symbol` field are left out. They throw a TypeError at `src/component/Table.jsx:49`. Rows are assumed well-formed.
- JSX rendering, inline styles, `Table.css`, the arrow indicators and the File button without a handler (`src/component/Table.jsx:62-165`) are left out. They are presentation only.
- The algorithm of `Array.prototype.sort` is implementation-defined. The model computes the result by insertion sort. `StableSort.SortedStableIsSortData` shows that any stable sort by the same comparator yields the same rows.
- The search is case-sensitive (`includes` on the raw strings, `src/component/Table.jsx:49`), and only the exact names `start_date` and `end_date` are compared as dates (`src/component/Table.jsx:35`); the model does the same.
- Strings are UTF-16 code-unit sequences, as in JavaScript. Converting Unicode text into them is not modelled. The worked example writes its symbols as code units (0x41 is "A") and leaves its two dates symbolic: it assumes only that `dateKey` puts one before the other.
