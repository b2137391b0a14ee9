/** The dashboard's state machine: the state record, the eight actions,
    the defaults the state starts from, `recomputeState` (which re-derives
    the filtered view and re-clamps the page together) and
    `transactionsReducer`.  Both are pure: every action yields a new
    state built by record update, which is what the source's object
    spreads do. */
module StateMachine {
  import opened Types
  import opened JsText
  import opened Comparator
  import opened ViewPipeline
  import opened JsMath
  import opened Pagination
  import opened DemoExpansion

  datatype RequestStatus = Idle | Loading | Success | Error

  datatype State = State(
    transactions: seq<Transaction>,
    filteredTransactions: seq<Transaction>,
    status: RequestStatus,
    error: Option<string>,
    sort: SortState,
    filters: TransactionFilters,
    page: int,
    pageSize: int,
    lastFetchedAt: Option<string>
  )

  /** A partial filter update: a `None` field is absent from the update. */
  datatype FilterUpdate = FilterUpdate(status: Option<StatusFilter>, asset: Option<string>, search: Option<string>)

  /** The reducer's actions.  `FetchSuccess` carries, besides the payload,
      the clock reading that becomes `lastFetchedAt`; `Unrecognized`
      stands for any action object of another type. */
  datatype Action =
    | FetchStart
    | FetchSuccess(payload: seq<Transaction>, fetchedAt: string)
    | FetchError(message: string)
    | ToggleSort(key: SortKey)
    | SetFilters(updates: FilterUpdate)
    | ResetFilters
    | SetPage(page: int)
    | SetPageSize(size: int)
    | Unrecognized

  const DEFAULT_FILTERS: TransactionFilters := TransactionFilters(AllStatuses, ALL_ASSETS, "")
  const DEFAULT_SORT: SortState := SortState(Timestamp, Desc)
  const PAGE_SIZE_OPTIONS: seq<int> := [10, 25, 50]
  const STATUS_OPTIONS: seq<StatusFilter> := [AllStatuses, OnlyStatus(Completed), OnlyStatus(Pending), OnlyStatus(Failed)]

  const InitialState: State := State([], [], Idle, None, DEFAULT_SORT, DEFAULT_FILTERS, 1, PAGE_SIZE_OPTIONS[0], None)

  /** The derived part of the state agrees with the rest: the view is the
      pipeline applied to the records, and the page is in range for it. */
  predicate ViewInSync(s: State) {
    PageValid(s) && s.filteredTransactions == ApplyFiltersAndSorting(s.transactions, s.filters, s.sort)
  }

  /** The page size is positive and the page is in range for the view. */
  predicate PageValid(s: State) {
    s.pageSize > 0 && PageInRange(s.page, TotalPages(|s.filteredTransactions|, s.pageSize))
  }

  /** `recomputeState(state, overrides)` applied to `next`, the state with
      the overrides already merged in. */
  function RecomputeState(next: State): (r: State)
    requires next.pageSize > 0
    ensures ViewInSync(r)
    ensures r.(filteredTransactions := next.filteredTransactions, page := next.page) == next
    ensures PageInRange(next.page, TotalPages(|r.filteredTransactions|, r.pageSize)) ==> r.page == next.page
  {
    var filteredTransactions := ApplyFiltersAndSorting(next.transactions, next.filters, next.sort);
    var totalPages := TotalPages(|filteredTransactions|, next.pageSize);
    next.(filteredTransactions := filteredTransactions, page := ClampPage(next.page, totalPages))
  }

  /** The direction a column starts in when it becomes the sort key:
      newest, latest and largest first for the temporal and amount
      columns, ascending for the text columns. */
  function DefaultDirection(key: SortKey): SortDirection {
    if key == Timestamp || key == SettlementDate || key == Amount then Desc else Asc
  }

  function Flip(direction: SortDirection): SortDirection {
    if direction == Asc then Desc else Asc
  }

  /** The sort after clicking the header of `key`: always by `key`; the
      current key flips its direction, a new key starts descending
      exactly when it is a number or an instant. */
  function NextSort(current: SortState, key: SortKey): (r: SortState)
    ensures r.key == key
    ensures current.key == key ==> r.direction != current.direction
    ensures current.key != key ==> (r.direction == Desc <==> !IsTextKey(key))
  {
    if current.key == key then SortState(key, Flip(current.direction))
    else SortState(key, DefaultDirection(key))
  }

  /** `{ ...filters, ...updates }`: a field present in the update wins,
      an absent one is kept. */
  function MergeFilters(filters: TransactionFilters, updates: FilterUpdate): (r: TransactionFilters)
    ensures updates.status.Some? ==> r.status == updates.status.value
    ensures updates.asset.Some? ==> r.asset == updates.asset.value
    ensures updates.search.Some? ==> r.search == updates.search.value
    ensures updates.status.None? ==> r.status == filters.status
    ensures updates.asset.None? ==> r.asset == filters.asset
    ensures updates.search.None? ==> r.search == filters.search
  {
    TransactionFilters(
      if updates.status.Some? then updates.status.value else filters.status,
      if updates.asset.Some? then updates.asset.value else filters.asset,
      if updates.search.Some? then updates.search.value else filters.search)
  }

  /** What the source asks of an action: a page size is positive. */
  predicate ValidAction(action: Action) {
    action.SetPageSize? ==> action.size > 0
  }

  function TransactionsReducer(state: State, action: Action): (r: State)
    requires state.pageSize > 0 && ValidAction(action)
    ensures r.pageSize > 0
    ensures ViewInSync(state) ==> ViewInSync(r)
    ensures !(action.FetchStart? || action.FetchError? || action.Unrecognized?) ==> ViewInSync(r)
  {
    match action
    case FetchStart =>
      state.(status := Loading, error := None)
    case FetchSuccess(payload, fetchedAt) =>
      var enhanced := ExpandedForDemo(payload);
      RecomputeState(state.(transactions := enhanced, status := Success, error := None,
                            page := 1, lastFetchedAt := Some(fetchedAt)))
    case FetchError(message) =>
      state.(status := Error, error := Some(message))
    case ToggleSort(key) =>
      RecomputeState(state.(sort := NextSort(state.sort, key), page := 1))
    case SetFilters(updates) =>
      RecomputeState(state.(filters := MergeFilters(state.filters, updates), page := 1))
    case ResetFilters =>
      RecomputeState(state.(filters := DEFAULT_FILTERS, page := 1))
    case SetPage(page) =>
      RecomputeState(state.(page := page))
    case SetPageSize(size) =>
      RecomputeState(state.(pageSize := size, page := 1))
    case Unrecognized =>
      state
  }

  /** The state after dispatching `actions` in order. */
  function ReduceAll(state: State, actions: seq<Action>): State
    requires state.pageSize > 0
    requires forall i :: 0 <= i < |actions| ==> ValidAction(actions[i])
    decreases |actions|
  {
    if actions == [] then state
    else ReduceAll(TransactionsReducer(state, actions[0]), actions[1..])
  }

  /** The rows the provider displays for the current page: exactly the
      view's rows from `(page - 1) * pageSize` up to one page further,
      cut off at the end of the view.  With a valid page they are never
      empty while the view has rows and never more than a page. */
  function VisibleRows(s: State): (r: seq<Transaction>)
    requires PageValid(s)
    ensures PageStart(s.page, s.pageSize) >= 0
    ensures r == s.filteredTransactions[Min(PageStart(s.page, s.pageSize), |s.filteredTransactions|)
                                        ..Min(PageStart(s.page, s.pageSize) + s.pageSize, |s.filteredTransactions|)]
    ensures |r| <= s.pageSize
    ensures r == [] <==> s.filteredTransactions == []
    ensures forall k :: 0 <= k < |r| ==>
              0 <= PageStart(s.page, s.pageSize) + k < |s.filteredTransactions|
              && r[k] == s.filteredTransactions[PageStart(s.page, s.pageSize) + k]
  {
    PageSliceIsSegment(s.filteredTransactions, s.page, s.pageSize);
    ValidPageShape(s.filteredTransactions, s.page, s.pageSize);
    PageSlice(s.filteredTransactions, s.page, s.pageSize)
  }

  // ------------------------------------------------ the provider's assets

  /** The distinct assets of `transactions`. */
  function AssetsOf(transactions: seq<Transaction>): set<string> {
    set t | t in transactions :: t.asset
  }

  /** The `Set` the provider fills with `forEach` to build the asset
      options (which it then sorts with `localeCompare` behind "All"). */
  method CollectAssets(transactions: seq<Transaction>) returns (unique: set<string>)
    ensures unique == AssetsOf(transactions)
    ensures forall a :: a in unique <==> exists i :: 0 <= i < |transactions| && transactions[i].asset == a
  {
    unique := {};
    var i := 0;
    while i < |transactions|
      invariant 0 <= i <= |transactions|
      invariant unique == AssetsOf(transactions[..i])
    {
      assert transactions[..i + 1] == transactions[..i] + [transactions[i]];
      unique := unique + {transactions[i].asset};
      i := i + 1;
    }
    assert transactions[..i] == transactions;
    forall a | a in unique ensures exists i :: 0 <= i < |transactions| && transactions[i].asset == a {
      var t :| t in transactions && t.asset == a;
      var j :| 0 <= j < |transactions| && transactions[j] == t;
    }
  }

  // ---------------------------------------------------------------- lemmas

  /** The initial state is consistent: no records, no view, page 1 of
      10 rows, sorted newest first with every filter open. */
  lemma InitialStateInSync()
    ensures ViewInSync(InitialState)
    ensures InitialState.pageSize == 10 && InitialState.page == 1
    ensures InitialState.sort == SortState(Timestamp, Desc)
    ensures InitialState.filters.status == AllStatuses && InitialState.filters.asset == ALL_ASSETS
    ensures IsBlank(InitialState.filters.search)
  {
  }

  /** The status options offer every status filter there is. */
  lemma StatusOptionsComplete(f: StatusFilter)
    ensures f in STATUS_OPTIONS
  {
    match f
    case AllStatuses => assert STATUS_OPTIONS[0] == f;
    case OnlyStatus(Completed) => assert STATUS_OPTIONS[1] == f;
    case OnlyStatus(Pending) => assert STATUS_OPTIONS[2] == f;
    case OnlyStatus(Failed) => assert STATUS_OPTIONS[3] == f;
  }

  /** Recomputing a recomputed state changes nothing. */
  lemma RecomputeIdempotent(next: State)
    requires next.pageSize > 0
    ensures RecomputeState(RecomputeState(next)) == RecomputeState(next)
  {
  }

  /** `FETCH_START` marks the request as loading and clears the error;
      nothing else changes. */
  lemma FetchStartFrame(state: State)
    requires state.pageSize > 0
    ensures var r := TransactionsReducer(state, FetchStart);
            r.status == Loading && r.error == None
            && r.(status := state.status, error := state.error) == state
  {
  }

  /** `FETCH_ERROR` records the message; records, view, sort, filters and
      page are untouched. */
  lemma FetchErrorFrame(state: State, message: string)
    requires state.pageSize > 0
    ensures var r := TransactionsReducer(state, FetchError(message));
            r.status == Error && r.error == Some(message)
            && r.(status := state.status, error := state.error) == state
  {
  }

  /** An action the reducer does not know returns the state as it is. */
  lemma UnrecognizedIsIdentity(state: State)
    requires state.pageSize > 0
    ensures TransactionsReducer(state, Unrecognized) == state
  {
  }

  /** `FETCH_SUCCESS` stores the expanded payload, marks success, clears
      the error, stamps the fetch time and shows page 1 of the new view;
      a payload of 120 rows or more is stored as it is. */
  lemma FetchSuccessLoads(state: State, payload: seq<Transaction>, fetchedAt: string)
    requires state.pageSize > 0
    ensures var r := TransactionsReducer(state, FetchSuccess(payload, fetchedAt));
            r.transactions == ExpandedForDemo(payload)
            && (|payload| >= DEMO_MIN_ROWS ==> r.transactions == payload)
            && r.status == Success && r.error == None && r.lastFetchedAt == Some(fetchedAt)
            && r.page == 1
            && r.filteredTransactions == ApplyFiltersAndSorting(r.transactions, state.filters, state.sort)
            && r.sort == state.sort && r.filters == state.filters && r.pageSize == state.pageSize
  {
  }

  /** Clicking the current sort column flips its direction and goes back
      to page 1; the view is re-sorted accordingly, and nothing else
      changes. */
  lemma ToggleSortSameKey(state: State)
    requires state.pageSize > 0
    ensures var r := TransactionsReducer(state, ToggleSort(state.sort.key));
            r.sort.key == state.sort.key && r.sort.direction != state.sort.direction
            && r.page == 1
            && r.filteredTransactions == ApplyFiltersAndSorting(state.transactions, state.filters, r.sort)
            && r == state.(sort := r.sort, filteredTransactions := r.filteredTransactions, page := 1)
  {
  }

  /** Clicking another column sorts by it: descending for `timestamp`,
      `settlementDate` and `amount`, ascending otherwise; page 1; nothing
      else changes. */
  lemma ToggleSortNewKey(state: State, key: SortKey)
    requires state.pageSize > 0 && key != state.sort.key
    ensures var r := TransactionsReducer(state, ToggleSort(key));
            r.sort.key == key
            && (r.sort.direction == Desc <==> key in {Timestamp, SettlementDate, Amount})
            && r.page == 1
            && r.filteredTransactions == ApplyFiltersAndSorting(state.transactions, state.filters, r.sort)
            && r == state.(sort := r.sort, filteredTransactions := r.filteredTransactions, page := 1)
  {
  }

  /** Clicking the current sort column twice restores the sort, on page 1. */
  lemma {:induction false} ToggleSortTwice(state: State)
    requires ViewInSync(state)
    ensures var r := TransactionsReducer(TransactionsReducer(state, ToggleSort(state.sort.key)), ToggleSort(state.sort.key));
            r == state.(page := 1)
  {
    var once := TransactionsReducer(state, ToggleSort(state.sort.key));
    assert once.sort.key == state.sort.key;
    assert Flip(Flip(state.sort.direction)) == state.sort.direction;
  }

  /** `SET_FILTERS` overwrites exactly the fields present in the update,
      re-filters the view and goes back to page 1; nothing else changes. */
  lemma SetFiltersMerges(state: State, updates: FilterUpdate)
    requires state.pageSize > 0
    ensures var r := TransactionsReducer(state, SetFilters(updates));
            (updates.status.Some? ==> r.filters.status == updates.status.value)
            && (updates.status.None? ==> r.filters.status == state.filters.status)
            && (updates.asset.Some? ==> r.filters.asset == updates.asset.value)
            && (updates.asset.None? ==> r.filters.asset == state.filters.asset)
            && (updates.search.Some? ==> r.filters.search == updates.search.value)
            && (updates.search.None? ==> r.filters.search == state.filters.search)
            && r.page == 1
            && r.filteredTransactions == ApplyFiltersAndSorting(state.transactions, r.filters, state.sort)
            && r == state.(filters := r.filters, filteredTransactions := r.filteredTransactions, page := 1)
  {
  }

  /** `RESET_FILTERS` restores the default filters, which keep every
      record, and goes back to page 1; nothing else changes. */
  lemma ResetFiltersRestores(state: State)
    requires state.pageSize > 0
    ensures var r := TransactionsReducer(state, ResetFilters);
            r.filters == DEFAULT_FILTERS && r.page == 1
            && multiset(r.filteredTransactions) == multiset(state.transactions)
            && r == state.(filters := DEFAULT_FILTERS, filteredTransactions := r.filteredTransactions, page := 1)
  {
    var r := TransactionsReducer(state, ResetFilters);
    var view := ApplyFiltersAndSorting(state.transactions, DEFAULT_FILTERS, state.sort);
    assert r == RecomputeState(state.(filters := DEFAULT_FILTERS, page := 1));
    assert r.filteredTransactions == view;
    assert r.page == ClampPage(1, TotalPages(|view|, state.pageSize));
    OpenFiltersKeepEverything(state.transactions, DEFAULT_FILTERS, state.sort);
  }

  /** Resetting the filters twice is resetting them once. */
  lemma ResetFiltersIdempotent(state: State)
    requires state.pageSize > 0
    ensures TransactionsReducer(TransactionsReducer(state, ResetFilters), ResetFilters)
            == TransactionsReducer(state, ResetFilters)
  {
  }

  /** In a consistent state `SET_PAGE` changes nothing but the page,
      which becomes the requested page clamped into the view's pages. */
  lemma SetPageClamps(state: State, page: int)
    requires ViewInSync(state)
    ensures var r := TransactionsReducer(state, SetPage(page));
            r == state.(page := r.page)
            && r.page == ClampPage(page, TotalPages(|state.filteredTransactions|, state.pageSize))
  {
    var next := state.(page := page);
    ReduceSetPage(state, page);
    RecomputeSyncedView(next);
    assert next.(page := next.page) == next;
  }

  /** `SET_PAGE` recomputes the state with the requested page. */
  lemma ReduceSetPage(state: State, page: int)
    requires state.pageSize > 0
    ensures TransactionsReducer(state, SetPage(page)) == RecomputeState(state.(page := page))
  {
    var action := SetPage(page);
    assert action.SetPage? && action.page == page;
  }

  /** Recomputing a state whose view is already up to date only clamps
      its page. */
  lemma RecomputeSyncedView(next: State)
    requires next.pageSize > 0
    requires next.filteredTransactions == ApplyFiltersAndSorting(next.transactions, next.filters, next.sort)
    ensures RecomputeState(next)
            == next.(page := ClampPage(next.page, TotalPages(|next.filteredTransactions|, next.pageSize)))
  {
  }

  /** `SET_PAGE_SIZE` sets the size and goes back to page 1; nothing else
      changes. */
  lemma SetPageSizeResets(state: State, size: int)
    requires state.pageSize > 0 && size > 0
    ensures var r := TransactionsReducer(state, SetPageSize(size));
            r.pageSize == size && r.page == 1
            && r.filteredTransactions == ApplyFiltersAndSorting(state.transactions, state.filters, state.sort)
            && r == state.(pageSize := size, filteredTransactions := r.filteredTransactions, page := 1)
  {
  }

  /** Whatever actions are dispatched from a consistent state, the view
      keeps matching the records, filters and sort, and the page stays in
      range. */
  lemma {:induction false} ReduceAllInSync(state: State, actions: seq<Action>)
    requires ViewInSync(state)
    requires forall i :: 0 <= i < |actions| ==> ValidAction(actions[i])
    ensures ViewInSync(ReduceAll(state, actions))
    decreases |actions|
  {
    if actions != [] {
      var next := TransactionsReducer(state, actions[0]);
      assert forall i :: 0 <= i < |actions[1..]| ==> ValidAction(actions[1..][i]) by {
        forall i | 0 <= i < |actions[1..]| ensures ValidAction(actions[1..][i]) {
          assert actions[1..][i] == actions[i + 1];
        }
      }
      ReduceAllInSync(next, actions[1..]);
    }
  }

  /** Every state reachable from the initial state is consistent. */
  lemma ReachableInSync(actions: seq<Action>)
    requires forall i :: 0 <= i < |actions| ==> ValidAction(actions[i])
    ensures ViewInSync(ReduceAll(InitialState, actions))
  {
    InitialStateInSync();
    ReduceAllInSync(InitialState, actions);
  }
}
