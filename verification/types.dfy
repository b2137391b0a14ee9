/** The records the dashboard works on: a transaction, the filter
    specification, the sort specification and the small enumerations
    they use.  Timestamps and settlement dates are instants already
    parsed into milliseconds since the epoch; amounts are exact reals
    (a JavaScript number without NaN). */
module Types {

  datatype Option<T> = None | Some(value: T)

  datatype TransactionType = Trade | Settlement | Transfer | Custody

  datatype TransactionStatus = Completed | Pending | Failed

  datatype Transaction = Transaction(
    id: string,
    asset: string,
    txType: TransactionType,
    status: TransactionStatus,
    amount: real,
    counterparty: string,
    timestamp: int,       // epoch milliseconds of the trade
    settlementDate: int   // epoch milliseconds of the settlement day
  )

  /** The status filter is either the sentinel 'All' or one status. */
  datatype StatusFilter = AllStatuses | OnlyStatus(status: TransactionStatus)

  /** The asset filter is a plain string; the string "All" matches every asset. */
  datatype TransactionFilters = TransactionFilters(status: StatusFilter, asset: string, search: string)

  /** The sortable columns, in the order the type declares them. */
  datatype SortKey = Id | Asset | Type | Status | Amount | Counterparty | Timestamp | SettlementDate

  datatype SortDirection = Asc | Desc

  datatype SortState = SortState(key: SortKey, direction: SortDirection)

  const ALL_ASSETS: string := "All"

  /** The text the type enumeration is spelled with. */
  function TypeName(t: TransactionType): string {
    match t
    case Trade => "Trade"
    case Settlement => "Settlement"
    case Transfer => "Transfer"
    case Custody => "Custody"
  }

  /** The text the status enumeration is spelled with. */
  function StatusName(s: TransactionStatus): string {
    match s
    case Completed => "Completed"
    case Pending => "Pending"
    case Failed => "Failed"
  }

  predicate IsTemporalKey(key: SortKey) {
    key == Timestamp || key == SettlementDate
  }

  predicate IsTextKey(key: SortKey) {
    key != Amount && !IsTemporalKey(key)
  }

  /** The explicit accessor that replaces the dynamic `record[key]`
      lookup for the columns that hold text. */
  function TextField(t: Transaction, key: SortKey): string
    requires IsTextKey(key)
  {
    match key
    case Id => t.id
    case Asset => t.asset
    case Type => TypeName(t.txType)
    case Status => StatusName(t.status)
    case Counterparty => t.counterparty
  }

  /** The accessor for the two temporal columns. */
  function InstantField(t: Transaction, key: SortKey): int
    requires IsTemporalKey(key)
  {
    if key == Timestamp then t.timestamp else t.settlementDate
  }
}
