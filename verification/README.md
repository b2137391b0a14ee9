# Transactions dashboard: the data-view engine

This project models the engine behind the transactions dashboard
(`transactions-dashboard/src/context/TransactionsContext.tsx`) in Dafny
and proves properties of it. The engine keeps a list of transactions and
derives the table the user sees from it:

- `compareValues` orders two records by a sort key. Amounts are compared
  as numbers, `timestamp` and `settlementDate` as instants, and every
  other column as lower-cased text. A direction modifier of +1 or -1
  applies to all three.
- `applyFiltersAndSorting` keeps the records that pass three filters:
  the status filter, the asset filter and a trimmed, lower-cased
  substring search. The search runs over the id, asset, type,
  counterparty and status. The survivors are then sorted stably.
- `clampPage`, the page count `Math.ceil(n / pageSize)` and the page
  slice of the provider handle pagination.
- `recomputeState` and `transactionsReducer` form the state machine over
  the eight actions.
- `expandTransactionsForDemo` pads a short payload to between 120 and
  200 rows with derived copies.

Modules, one per file:

| module | file | models |
|---|---|---|
| `Types` | `types.dfy` | the record, filter and sort types of `src/types/transaction.ts` |
| `JsText` | `js_text.dfy` | the string built-ins the engine uses: `toLowerCase`, `trim`, `includes`, `<` on strings, `${n}` |
| `JsMath` | `js_math.dfy` | `Math.min` and `Math.max` |
| `Comparator` | `comparator.dfy` | `compareValues` |
| `ViewPipeline` | `view_pipeline.dfy` | `applyFiltersAndSorting`; `Array.prototype.sort` as a stable insertion sort |
| `Pagination` | `pagination.dfy` | `clampPage`, the page count, the page slice |
| `DemoExpansion` | `demo_expansion.dfy` | `expandTransactionsForDemo`, as a method with the nested loop and as a closed form |
| `StateMachine` | `state_machine.dfy` | the state, the actions, the defaults, `recomputeState`, `transactionsReducer`, the asset set |
| `Scenarios` | `scenarios.dfy` | the three scenarios of `TransactionsContext.test.tsx` |

Modelling choices:

- Timestamps and settlement dates are integers: milliseconds since the
  epoch, already parsed.
- Amounts are exact reals.
- The sort is specified, not just implemented.
  - `StableSort` is proved sorted, a permutation and stable. Stable means
    every class of records that compare equal keeps its input order.
  - `StableSortUnique` proves that any result with those three properties
    equals `StableSort`'s result. So the model does not depend on which
    stable algorithm the JavaScript runtime uses.
- `recomputeState(state, overrides)` is modelled as `RecomputeState`
  applied to the record `state` with the overrides already written in
  (a Dafny record update). That is exactly what the object spread does.
- `new Date().toISOString()` for `lastFetchedAt` is a clock reading, so
  the `FetchSuccess` action carries it as a parameter.

## Model

| member | source | states |
|---|---|---|
| `JsText.ToLower` | transactions-dashboard/src/context/TransactionsContext.tsx:124-125 | lower-casing keeps the length, leaves no upper-case letter and keeps every other character as it is |
| `JsText.ToLowerLetters` | transactions-dashboard/src/context/TransactionsContext.tsx:124-125 | each upper-case letter becomes the lower-case letter at the same place in the alphabet |
| `JsText.ToLowerAppend` | transactions-dashboard/src/context/TransactionsContext.tsx:151-159 | lower-casing a joined string is joining the lower-cased parts |
| `JsText.ToLowerIdempotent` | transactions-dashboard/src/context/TransactionsContext.tsx:137 | lower-casing twice is lower-casing once |
| `JsText.TrimEmptyIffBlank` | transactions-dashboard/src/context/TransactionsContext.tsx:137-149 | `trim()` gives the empty string exactly when the input is all white space, so a blank search matches everything |
| `JsText.TrimShape` | transactions-dashboard/src/context/TransactionsContext.tsx:137 | `trim()` removes white space from the two ends and nothing else: the input is a blank run, the result and a blank run, and the result is empty or starts and ends with a character other than white space |
| `JsText.Less` | transactions-dashboard/src/context/TransactionsContext.tsx:129 | a proper prefix is smaller than the string it starts; the lemmas below give the rest of the order |
| `JsText.LessIrreflexive` | transactions-dashboard/src/context/TransactionsContext.tsx:129 | no string is `>` itself |
| `JsText.LessTotal` | transactions-dashboard/src/context/TransactionsContext.tsx:127-129 | two different strings are ordered by `<` one way or the other |
| `JsText.LessAsymmetric` | transactions-dashboard/src/context/TransactionsContext.tsx:129 | `<` never holds both ways |
| `JsText.LessTransitive` | transactions-dashboard/src/context/TransactionsContext.tsx:129 | `<` on strings is transitive |
| `JsText.LessLexicographic` | transactions-dashboard/src/context/TransactionsContext.tsx:127-129 | `<` on strings is the lexicographic order: a proper prefix is smaller, and otherwise the first differing character decides (so `"TX-10" < "TX-9"`) |
| `JsText.Contains` | transactions-dashboard/src/context/TransactionsContext.tsx:161 | `includes` is false for a needle longer than the haystack and true for the empty needle |
| `JsText.ContainsMiddle` | transactions-dashboard/src/context/TransactionsContext.tsx:161 | `includes` finds a string placed anywhere inside the haystack |
| `JsText.AbsentFirstChar` | transactions-dashboard/src/context/TransactionsContext.tsx:161 | `includes` fails when the needle's first character is nowhere in the haystack |
| `JsText.NatToString` | transactions-dashboard/src/context/TransactionsContext.tsx:100 | the decimal rendering of a count is non-empty, all digits, and starts with `0` only for zero |
| `JsText.NatToStringValue` | transactions-dashboard/src/context/TransactionsContext.tsx:100 | the digits `${n}` renders denote `n` |
| `Comparator.CompareValues` | transactions-dashboard/src/context/TransactionsContext.tsx:109-130 | the comparator is 0 exactly when the two records hold the same value in the column (text up to case) |
| `Comparator.CompareValuesSign` | transactions-dashboard/src/context/TransactionsContext.tsx:109-130 | the comparator is negative exactly when `a` comes first in the chosen direction, zero exactly when the column values agree (text up to case), and positive exactly when `b` comes first; the order is defined independently of the arithmetic |
| `Comparator.CompareReflexive` | transactions-dashboard/src/context/TransactionsContext.tsx:109-130 | `compare(x, x) = 0` for every key and direction |
| `Comparator.CompareAntisymmetric` | transactions-dashboard/src/context/TransactionsContext.tsx:109-130 | swapping the operands negates the result |
| `Comparator.CompareDirection` | transactions-dashboard/src/context/TransactionsContext.tsx:110 | `desc` gives the negation of `asc` |
| `Comparator.CompareTransitive` | transactions-dashboard/src/context/TransactionsContext.tsx:109-130 | "not after" is transitive, so the comparator is a total preorder |
| `Comparator.CompareCaseInsensitive` | transactions-dashboard/src/context/TransactionsContext.tsx:124-127 | on text columns, values that differ only by case compare equal and are interchangeable |
| `ViewPipeline.ApplyFiltersAndSorting` | transactions-dashboard/src/context/TransactionsContext.tsx:132-169 | the view never has more records than the input; `PipelineCorrect` states the rest |
| `ViewPipeline.PipelineCorrect` | transactions-dashboard/src/context/TransactionsContext.tsx:132-169 | the output holds each record that passes status, asset and search exactly as often as the input does, and nothing else; it is sorted under `compareValues`; every tie class appears in input order (stable) |
| `ViewPipeline.Filter` | transactions-dashboard/src/context/TransactionsContext.tsx:139-162 | the filter never adds records, and every record it keeps passes status, asset and search |
| `ViewPipeline.FilterCounts` | transactions-dashboard/src/context/TransactionsContext.tsx:139-162 | `filter` keeps each matching record with its multiplicity and drops every other record |
| `ViewPipeline.FilterLength` | transactions-dashboard/src/context/TransactionsContext.tsx:139-162 | filtering never adds records |
| `ViewPipeline.FilterKeepsAll` | transactions-dashboard/src/context/TransactionsContext.tsx:139-162 | when every record matches, the filter returns the input unchanged |
| `ViewPipeline.FilterTies` | transactions-dashboard/src/context/TransactionsContext.tsx:139-162 | the filter keeps each tie class's matching records in input order |
| `ViewPipeline.OpenFiltersMatchEverything` | transactions-dashboard/src/context/TransactionsContext.tsx:140-149 | status `All`, asset `All` and a blank search match every record |
| `ViewPipeline.OpenFiltersKeepEverything` | transactions-dashboard/src/context/TransactionsContext.tsx:137-168 | with open filters the output is a permutation of the whole input, namely its stable sort |
| `ViewPipeline.TieTransitive` | transactions-dashboard/src/context/TransactionsContext.tsx:109-130 | comparing equal is transitive |
| `ViewPipeline.InsertPermutation` | transactions-dashboard/src/context/TransactionsContext.tsx:164-168 | inserting adds exactly one record |
| `ViewPipeline.InsertSorted` | transactions-dashboard/src/context/TransactionsContext.tsx:164-168 | inserting into a sorted sequence keeps it sorted |
| `ViewPipeline.InsertTies` | transactions-dashboard/src/context/TransactionsContext.tsx:164-168 | inserting a record puts it at the front of its own tie class and leaves every other tie class alone |
| `ViewPipeline.StableSort` | transactions-dashboard/src/context/TransactionsContext.tsx:164-168 | the sort keeps the number of records |
| `ViewPipeline.StableSortPermutation` | transactions-dashboard/src/context/TransactionsContext.tsx:164-168 | the sort is a permutation of its input |
| `ViewPipeline.StableSortSorted` | transactions-dashboard/src/context/TransactionsContext.tsx:164-168 | the sort's output is ordered by the comparator |
| `ViewPipeline.StableSortStable` | transactions-dashboard/src/context/TransactionsContext.tsx:164-168 | records that compare equal keep their input order |
| `ViewPipeline.TiesMembers` | transactions-dashboard/src/context/TransactionsContext.tsx:164-168 | a tie class holds only input records that compare equal to its representative |
| `ViewPipeline.SortedTiesDetermine` | transactions-dashboard/src/context/TransactionsContext.tsx:164-168 | two sorted sequences with the same tie classes are equal |
| `ViewPipeline.StableSortUnique` | transactions-dashboard/src/context/TransactionsContext.tsx:164-168 | every sorted, stable rearrangement of the input is the one `StableSort` gives |
| `ViewPipeline.StableSortIdempotent` | transactions-dashboard/src/context/TransactionsContext.tsx:164-168 | sorting a sorted result changes nothing |
| `ViewPipeline.DirectionReversesOrder` | transactions-dashboard/src/context/TransactionsContext.tsx:164-168 | two records with different values in the column come in one order under `asc` and in the opposite order under `desc` |
| `Pagination.ClampPage` | transactions-dashboard/src/context/TransactionsContext.tsx:171-174 | 1 when there are no pages; otherwise a page in `1..totalPages`, equal to the request when it is in range, 1 below the range and the last page above it |
| `Pagination.ClampPageIdempotent` | transactions-dashboard/src/context/TransactionsContext.tsx:171-174 | clamping twice is clamping once |
| `Pagination.TotalPages` | transactions-dashboard/src/context/TransactionsContext.tsx:186 | the page count is 0 exactly when there are no rows |
| `Pagination.TotalPagesBounds` | transactions-dashboard/src/context/TransactionsContext.tsx:186 | `ceil(n / pageSize)` pages hold all `n` rows and one page fewer does not |
| `Pagination.DisplayedTotalPages` | transactions-dashboard/src/context/TransactionsContext.tsx:293 | the displayed count is at least 1, exactly 1 when there are no rows, and equal to the real count when there are rows |
| `Pagination.SliceIndex` | transactions-dashboard/src/context/TransactionsContext.tsx:297 | `slice` reads its bounds into `0..length` |
| `Pagination.PageSliceIsSegment` | transactions-dashboard/src/context/TransactionsContext.tsx:294-297 | page `p` is the run of at most `pageSize` rows from `(p - 1) * pageSize`, cut at the end |
| `Pagination.PageSliceNonEmpty` | transactions-dashboard/src/context/TransactionsContext.tsx:294-297 | every page from 1 to the page count holds a row |
| `Pagination.JoinPagesPrefix` | transactions-dashboard/src/context/TransactionsContext.tsx:294-297 | pages `1..k` laid end to end are the first `k * pageSize` rows |
| `Pagination.PagesReassemble` | transactions-dashboard/src/context/TransactionsContext.tsx:293-297 | the pages `1..max(1, ceil(n / pageSize))` concatenate to the whole view |
| `Pagination.PageOfRow` | transactions-dashboard/src/context/TransactionsContext.tsx:293-297 | each row lies on exactly one page, `i / pageSize + 1`, at offset `i % pageSize`, so the pages are disjoint |
| `Pagination.ValidPageShape` | transactions-dashboard/src/context/TransactionsContext.tsx:294-297 | a page in range is non-empty exactly when there are rows, holds at most `pageSize` rows and lists the view from its start |
| `DemoExpansion.ExpandTransactionsForDemo` | transactions-dashboard/src/context/TransactionsContext.tsx:85-107 | the nested loop computes `ExpandedForDemo`, and it terminates |
| `DemoExpansion.ExpandedForDemo` | transactions-dashboard/src/context/TransactionsContext.tsx:85-107 | the expansion starts with the payload and never drops a row |
| `DemoExpansion.PushRound` | transactions-dashboard/src/context/TransactionsContext.tsx:94-103 | one `forEach` pass pushes derived rows in input order while the target is not met |
| `DemoExpansion.ExpandedForDemoShape` | transactions-dashboard/src/context/TransactionsContext.tsx:85-107 | 120 or more rows are returned unchanged; a shorter non-empty payload grows to exactly `min(200, max(120, 5n))` rows, starts with the payload, and every appended row copies a payload row in every field but `id` and `timestamp` |
| `DemoExpansion.ExpandedForDemoLayout` | transactions-dashboard/src/context/TransactionsContext.tsx:89-104 | the result is the payload followed by the derived rounds, cut at the target |
| `DemoExpansion.ExpandedForDemoRow` | transactions-dashboard/src/context/TransactionsContext.tsx:96-102 | position `n + round * n + index` holds row `index` of round `round`, with id suffix `-R<round+1>-<index+1>` and timestamp moved `round * 7 + index + 1` minutes forward |
| `DemoExpansion.AppendedRowsAreCopies` | transactions-dashboard/src/context/TransactionsContext.tsx:98-102 | every appended row copies some payload row except for `id` and `timestamp` |
| `DemoExpansion.RoundsAt` | transactions-dashboard/src/context/TransactionsContext.tsx:94-103 | round `r` puts the copy of row `index` at offset `r * n + index` |
| `DemoExpansion.RoundsPrefix` | transactions-dashboard/src/context/TransactionsContext.tsx:93-104 | later rounds only append |
| `DemoExpansion.RoundStep` | transactions-dashboard/src/context/TransactionsContext.tsx:93-104 | one `forEach` pass turns the state after `i` rounds into the state after `i + 1` rounds |
| `DemoExpansion.AfterRoundsGrows` | transactions-dashboard/src/context/TransactionsContext.tsx:93 | a pass that starts below the target pushes a row, so the loop terminates for a non-empty payload |
| `DemoExpansion.AfterEnoughRounds` | transactions-dashboard/src/context/TransactionsContext.tsx:93 | once the target is met further rounds change nothing |
| `DemoExpansion.RoundsAreCopies` | transactions-dashboard/src/context/TransactionsContext.tsx:98-102 | every derived row copies a payload row except for `id` and `timestamp` |
| `DemoExpansion.EmptyPayloadNeverFinishes` | transactions-dashboard/src/context/TransactionsContext.tsx:93-104 | the loop as written, on an empty payload, has not finished after any number of iterations |
| `DemoExpansion.ExpandAsWritten` | transactions-dashboard/src/context/TransactionsContext.tsx:85-107 | whenever the loop as written finishes on a payload under 120 rows, it has reached the target |
| `DemoExpansion.ExpandAsWrittenAgrees` | transactions-dashboard/src/context/TransactionsContext.tsx:85-107 | on a non-empty payload the loop as written finishes within `DemoTarget(n)` iterations with the same result as the corrected expansion |
| `StateMachine.RecomputeState` | transactions-dashboard/src/context/TransactionsContext.tsx:176-193 | the result's view is the pipeline applied to its records, filters and sort; its page is in range; every other field is the merged state's; an in-range page is kept |
| `StateMachine.RecomputeIdempotent` | transactions-dashboard/src/context/TransactionsContext.tsx:176-193 | recomputing a recomputed state changes nothing |
| `StateMachine.RecomputeSyncedView` | transactions-dashboard/src/context/TransactionsContext.tsx:176-193 | recomputing a state whose view is already current only clamps its page |
| `StateMachine.TransactionsReducer` | transactions-dashboard/src/context/TransactionsContext.tsx:195-263 | the page size stays positive; a consistent state stays consistent; every action routed through `recomputeState` ends consistent |
| `StateMachine.InitialStateInSync` | transactions-dashboard/src/context/TransactionsContext.tsx:59-83 | the initial state is consistent: page 1 of 10 rows, newest first, every filter open |
| `StateMachine.StatusOptionsComplete` | transactions-dashboard/src/context/TransactionsContext.tsx:71 | the status options offer every status filter |
| `StateMachine.FetchStartFrame` | transactions-dashboard/src/context/TransactionsContext.tsx:197-202 | `FETCH_START` sets the status to loading and clears the error; nothing else changes |
| `StateMachine.FetchSuccessLoads` | transactions-dashboard/src/context/TransactionsContext.tsx:203-213 | `FETCH_SUCCESS` stores the expanded payload (a payload of 120 or more rows as it is), marks success, clears the error, stamps the fetch time, re-derives the view and shows page 1 |
| `StateMachine.FetchErrorFrame` | transactions-dashboard/src/context/TransactionsContext.tsx:214-219 | `FETCH_ERROR` sets the status to error and records the message; nothing else changes |
| `StateMachine.NextSort` | transactions-dashboard/src/context/TransactionsContext.tsx:221-230 | the next sort is by the clicked key; the current key flips its direction; a new key starts `desc` exactly when it is a number or an instant |
| `StateMachine.ToggleSortSameKey` | transactions-dashboard/src/context/TransactionsContext.tsx:220-236 | toggling the current key flips the direction, re-sorts the view and shows page 1; nothing else changes |
| `StateMachine.ToggleSortNewKey` | transactions-dashboard/src/context/TransactionsContext.tsx:220-236 | toggling another key sorts by it, `desc` exactly for `timestamp`, `settlementDate` and `amount`, and shows page 1; nothing else changes |
| `StateMachine.ToggleSortTwice` | transactions-dashboard/src/context/TransactionsContext.tsx:220-236 | toggling the current key twice restores the state, on page 1 |
| `StateMachine.MergeFilters` | transactions-dashboard/src/context/TransactionsContext.tsx:239-242 | every field present in the update replaces the current one; every absent field is kept |
| `StateMachine.SetFiltersMerges` | transactions-dashboard/src/context/TransactionsContext.tsx:237-245 | `SET_FILTERS` overwrites exactly the fields present in the update, re-derives the view under the new filters and shows page 1; nothing else changes |
| `StateMachine.ResetFiltersRestores` | transactions-dashboard/src/context/TransactionsContext.tsx:246-250 | `RESET_FILTERS` restores the default filters, under which the view is a permutation of all records, and shows page 1; nothing else changes |
| `StateMachine.ResetFiltersIdempotent` | transactions-dashboard/src/context/TransactionsContext.tsx:246-250 | resetting twice is resetting once |
| `StateMachine.ReduceSetPage` | transactions-dashboard/src/context/TransactionsContext.tsx:251-254 | `SET_PAGE` is `recomputeState` of the state with the requested page |
| `StateMachine.SetPageClamps` | transactions-dashboard/src/context/TransactionsContext.tsx:251-254 | `SET_PAGE` changes only the page, to the requested page clamped into the view's pages |
| `StateMachine.SetPageSizeResets` | transactions-dashboard/src/context/TransactionsContext.tsx:255-259 | `SET_PAGE_SIZE` sets the size, re-derives the view and shows page 1; nothing else changes |
| `StateMachine.UnrecognizedIsIdentity` | transactions-dashboard/src/context/TransactionsContext.tsx:260-261 | an unknown action returns the state unchanged |
| `StateMachine.ReduceAllInSync` | transactions-dashboard/src/context/TransactionsContext.tsx:176-263 | any sequence of actions keeps a consistent state consistent |
| `StateMachine.ReachableInSync` | transactions-dashboard/src/context/TransactionsContext.tsx:195-263 | every state reachable from the initial state is consistent |
| `StateMachine.VisibleRows` | transactions-dashboard/src/context/TransactionsContext.tsx:294-299 | the displayed rows of a valid page are exactly `view[min(start, n)..min(start + pageSize, n)]` with `start = (page - 1) * pageSize` and `n` the view's length: a full page of `pageSize` rows except on the last page, never empty while the view has rows |
| `StateMachine.CollectAssets` | transactions-dashboard/src/context/TransactionsContext.tsx:301-303 | the `Set` filled by `forEach` holds exactly the assets that occur in the records |
| `Scenarios.AmountAscending` | transactions-dashboard/src/context/TransactionsContext.test.tsx:45-54 | amount ascending over TX-1/2/3 gives TX-3, TX-1, TX-2 |
| `Scenarios.TimestampDescending` | transactions-dashboard/src/context/TransactionsContext.test.tsx:56-65 | timestamp descending puts TX-3 first |
| `Scenarios.CombinedFilter` | transactions-dashboard/src/context/TransactionsContext.test.tsx:67-81 | `{Completed, BTC, "gamma"}` leaves exactly TX-3 |

## Left out

- The React provider: `useReducer`, `useEffect`, `useMemo`,
  `useCallback`, the refresh token and the `AbortController`
  cancellation. This is framework-driven asynchronous behaviour, not
  sequential code.
- `fetchTransactions` (network I/O); `src/api/transactionsApi.ts` is not
  part of this model.
- The table and toolbar components, which only render.
- `Date` parsing and `toISOString`: timestamps are integers in
  milliseconds, and the shifted timestamp of a derived row is an integer
  too.
- `lastFetchedAt` reads the wall clock; the `FetchSuccess` action carries
  that reading as a parameter.
- JavaScript number semantics for `amount`: `Number(...)` coercion, NaN
  and floating-point subtraction. Amounts are exact reals.
- JsText.ToLower: does not model Unicode case mapping beyond the ASCII
  letters A-Z.
- JsText.Less: compares characters as code points, where JavaScript
  compares UTF-16 code units; the two differ only for characters outside
  the Basic Multilingual Plane.
- The `localeCompare` ordering of the asset options, which depends on the
  locale. The model keeps only the set of assets (`CollectAssets`), not
  its order or the leading `'All'`.
- A partial filter update whose field is present but `undefined`; a
  `FilterUpdate` field is either absent or a value.
- Non-integer page numbers and page sizes: `page` and `pageSize` are
  integers here, while the reducer would accept a JavaScript number such
  as `SET_PAGE(2.5)`.
- Non-positive page sizes: the reducer requires the state's page size to
  be positive, and a `SET_PAGE_SIZE` action to carry a positive size.
  The source does not check either.
- `recomputeState`'s `overrides` argument is not a separate value. Every
  call site writes the overrides into the state with a record update
  before calling `RecomputeState`.

## Findings

| source | as written | input that shows it | evidently intended | confidence | as-written member | corrected member |
|---|---|---|---|---|---|---|
| transactions-dashboard/src/context/TransactionsContext.tsx:93-104 | the `for` loop runs while `expanded.length < target`, and only the inner `forEach` over the payload pushes rows | an empty payload `[]`: the target is 120 and no pass pushes anything, so the loop never ends and `FETCH_SUCCESS` hangs | an empty payload yields an empty list | not executed | `DemoExpansion.EmptyPayloadNeverFinishes` | `DemoExpansion.ExpandTransactionsForDemo` |

The corrected expansion returns an empty payload unchanged. The
reducer's `FETCH_SUCCESS` uses it through `ExpandedForDemo`. So an empty
response loads an empty table instead of hanging.
