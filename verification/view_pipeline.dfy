/** `applyFiltersAndSorting`: keep the records that pass the status, asset
    and free-text filters, then sort the survivors stably with the
    comparator.  The sort runs on the fresh array that `filter` returns;
    here every sequence is a value, so the input is untouched by
    construction. */
module ViewPipeline {
  import opened Types
  import opened JsText
  import opened Comparator

  // ------------------------------------------------------------ filtering

  /** The search text as the filter uses it: trimmed, then lower-cased. */
  function NormalizedSearch(search: string): string {
    ToLower(Trim(search))
  }

  /** Identifier, asset, type, counterparty and status joined by single
      spaces and lower-cased. */
  function Haystack(t: Transaction): string {
    ToLower(t.id + " " + t.asset + " " + TypeName(t.txType) + " " + t.counterparty + " " + StatusName(t.status))
  }

  predicate MatchesStatus(t: Transaction, filters: TransactionFilters) {
    filters.status == AllStatuses || filters.status == OnlyStatus(t.status)
  }

  predicate MatchesAsset(t: Transaction, filters: TransactionFilters) {
    filters.asset == ALL_ASSETS || t.asset == filters.asset
  }

  /** An empty normalized search matches everything; otherwise it must
      occur in the haystack. */
  predicate MatchesSearch(t: Transaction, normalizedSearch: string) {
    normalizedSearch == "" || Contains(Haystack(t), normalizedSearch)
  }

  /** The predicate `filter` is called with. */
  predicate Matches(t: Transaction, filters: TransactionFilters) {
    MatchesStatus(t, filters) && MatchesAsset(t, filters) && MatchesSearch(t, NormalizedSearch(filters.search))
  }

  /** `transactions.filter(...)`: the matching records, in input order. */
  function Filter(transactions: seq<Transaction>, filters: TransactionFilters): (r: seq<Transaction>)
    ensures |r| <= |transactions|
    ensures forall i :: 0 <= i < |r| ==> Matches(r[i], filters)
  {
    if transactions == [] then []
    else (if Matches(transactions[0], filters) then [transactions[0]] else []) + Filter(transactions[1..], filters)
  }

  // -------------------------------------------------------------- sorting

  /** The comparator passed to `sort`: look the column up on both records
      and hand the two values to `compareValues`. */
  function CompareRecords(a: Transaction, b: Transaction, sort: SortState): real {
    CompareValues(a, b, sort.key, sort.direction)
  }

  predicate SortedBy(s: seq<Transaction>, sort: SortState) {
    forall i, j :: 0 <= i < j < |s| ==> CompareRecords(s[i], s[j], sort) <= 0.0
  }

  /** The records of `s` that compare equal to `c`, in the order `s` has
      them.  A sort is stable when it keeps every such subsequence. */
  function Ties(s: seq<Transaction>, c: Transaction, sort: SortState): seq<Transaction> {
    if s == [] then []
    else (if CompareRecords(s[0], c, sort) == 0.0 then [s[0]] else []) + Ties(s[1..], c, sort)
  }

  /** Put `x` in front of the first record it does not come after. */
  function Insert(x: Transaction, r: seq<Transaction>, sort: SortState): (r': seq<Transaction>)
    ensures |r'| == |r| + 1
  {
    if r == [] || CompareRecords(x, r[0], sort) <= 0.0 then [x] + r
    else [r[0]] + Insert(x, r[1..], sort)
  }

  /** The stable sort `Array.prototype.sort` performs, written as an
      insertion sort; `StableSortUnique` shows that any other stable sort
      gives the same sequence. */
  function StableSort(s: seq<Transaction>, sort: SortState): (r: seq<Transaction>)
    ensures |r| == |s|
  {
    if s == [] then [] else Insert(s[0], StableSort(s[1..], sort), sort)
  }

  /** The records of the input that pass the filters and compare equal to
      `c`, in input order: what a stable pipeline must list for `c`'s tie
      class. */
  function MatchingTies(transactions: seq<Transaction>, filters: TransactionFilters, c: Transaction, sort: SortState): seq<Transaction> {
    if transactions == [] then []
    else
      (if Matches(transactions[0], filters) && CompareRecords(transactions[0], c, sort) == 0.0
       then [transactions[0]] else [])
      + MatchingTies(transactions[1..], filters, c, sort)
  }

  // ------------------------------------------------------------- pipeline

  /** Filter, then sort the survivors stably (on the fresh sequence the
      filter returns, so the input is left as it is). */
  function ApplyFiltersAndSorting(transactions: seq<Transaction>, filters: TransactionFilters, sort: SortState): (r: seq<Transaction>)
    ensures |r| <= |transactions|
  {
    StableSort(Filter(transactions, filters), sort)
  }

  /** What the pipeline delivers: exactly the matching records, each as
      often as the input holds it, sorted by the comparator, and with the
      records of every tie class in their input order. */
  lemma PipelineCorrect(transactions: seq<Transaction>, filters: TransactionFilters, sort: SortState)
    ensures var r := ApplyFiltersAndSorting(transactions, filters, sort);
            (forall x :: multiset(r)[x] == (if Matches(x, filters) then multiset(transactions)[x] else 0))
            && (forall x :: x in r ==> x in transactions && Matches(x, filters))
            && |r| <= |transactions|
            && SortedBy(r, sort)
            && (forall c :: Ties(r, c, sort) == MatchingTies(transactions, filters, c, sort))
  {
    var filtered := Filter(transactions, filters);
    FilterCounts(transactions, filters);
    FilterLength(transactions, filters);
    StableSortPermutation(filtered, sort);
    StableSortSorted(filtered, sort);
    var r := StableSort(filtered, sort);
    forall x | x in r ensures x in transactions && Matches(x, filters) {
      assert multiset(r)[x] > 0;
    }
    forall c ensures Ties(r, c, sort) == MatchingTies(transactions, filters, c, sort) {
      StableSortStable(filtered, c, sort);
      FilterTies(transactions, filters, c, sort);
    }
  }

  // --------------------------------------------------- lemmas: filtering

  /** `Filter` keeps each matching record as often as the input has it and
      drops every other record. */
  lemma {:induction false} FilterCounts(transactions: seq<Transaction>, filters: TransactionFilters)
    ensures forall x :: multiset(Filter(transactions, filters))[x]
                        == (if Matches(x, filters) then multiset(transactions)[x] else 0)
  {
    if transactions != [] {
      FilterCounts(transactions[1..], filters);
      assert transactions == [transactions[0]] + transactions[1..];
    }
  }

  lemma {:induction false} FilterLength(transactions: seq<Transaction>, filters: TransactionFilters)
    ensures |Filter(transactions, filters)| <= |transactions|
  {
    if transactions != [] {
      FilterLength(transactions[1..], filters);
    }
  }

  /** A filter that lets every record through returns the input as it is. */
  lemma {:induction false} FilterKeepsAll(transactions: seq<Transaction>, filters: TransactionFilters)
    requires forall i :: 0 <= i < |transactions| ==> Matches(transactions[i], filters)
    ensures Filter(transactions, filters) == transactions
  {
    if transactions != [] {
      FilterKeepsAll(transactions[1..], filters);
    }
  }

  /** The tie classes of the filtered sequence are those of the input,
      restricted to matching records. */
  lemma {:induction false} FilterTies(transactions: seq<Transaction>, filters: TransactionFilters, c: Transaction, sort: SortState)
    ensures Ties(Filter(transactions, filters), c, sort) == MatchingTies(transactions, filters, c, sort)
  {
    if transactions != [] {
      var t := transactions[0];
      FilterTies(transactions[1..], filters, c, sort);
      var rest := Filter(transactions[1..], filters);
      if Matches(t, filters) {
        assert Filter(transactions, filters) == [t] + rest;
        assert ([t] + rest)[1..] == rest;
      } else {
        assert Filter(transactions, filters) == rest;
      }
    }
  }

  /** With status 'All', asset 'All' and a search that trims to nothing,
      every record passes the filters. */
  lemma OpenFiltersMatchEverything(t: Transaction, filters: TransactionFilters)
    requires filters.status == AllStatuses && filters.asset == ALL_ASSETS && IsBlank(filters.search)
    ensures Matches(t, filters)
  {
    TrimEmptyIffBlank(filters.search);
  }

  /** ... so the pipeline returns a permutation of the whole input. */
  lemma OpenFiltersKeepEverything(transactions: seq<Transaction>, filters: TransactionFilters, sort: SortState)
    requires filters.status == AllStatuses && filters.asset == ALL_ASSETS && IsBlank(filters.search)
    ensures multiset(ApplyFiltersAndSorting(transactions, filters, sort)) == multiset(transactions)
    ensures ApplyFiltersAndSorting(transactions, filters, sort) == StableSort(transactions, sort)
  {
    forall i | 0 <= i < |transactions| ensures Matches(transactions[i], filters) {
      OpenFiltersMatchEverything(transactions[i], filters);
    }
    FilterKeepsAll(transactions, filters);
    StableSortPermutation(transactions, sort);
  }

  // ----------------------------------------------------- lemmas: sorting

  /** "Compares equal" is transitive. */
  lemma TieTransitive(a: Transaction, b: Transaction, c: Transaction, sort: SortState)
    requires CompareRecords(a, b, sort) == 0.0 && CompareRecords(b, c, sort) == 0.0
    ensures CompareRecords(a, c, sort) == 0.0
  {
    CompareTransitive(a, b, c, sort.key, sort.direction);
    CompareAntisymmetric(a, b, sort.key, sort.direction);
    CompareAntisymmetric(b, c, sort.key, sort.direction);
    CompareTransitive(c, b, a, sort.key, sort.direction);
    CompareAntisymmetric(a, c, sort.key, sort.direction);
  }

  lemma {:induction false} InsertPermutation(x: Transaction, r: seq<Transaction>, sort: SortState)
    ensures multiset(Insert(x, r, sort)) == multiset(r) + multiset{x}
  {
    if r != [] && CompareRecords(x, r[0], sort) > 0.0 {
      InsertPermutation(x, r[1..], sort);
      assert r == [r[0]] + r[1..];
    }
  }

  lemma {:induction false} InsertSorted(x: Transaction, r: seq<Transaction>, sort: SortState)
    requires SortedBy(r, sort)
    ensures SortedBy(Insert(x, r, sort), sort)
  {
    var res := Insert(x, r, sort);
    if r == [] {
    } else if CompareRecords(x, r[0], sort) <= 0.0 {
      forall i, j | 0 <= i < j < |res| ensures CompareRecords(res[i], res[j], sort) <= 0.0 {
        if i == 0 && j > 1 {
          CompareTransitive(x, r[0], r[j - 1], sort.key, sort.direction);
        }
      }
    } else {
      var tail := Insert(x, r[1..], sort);
      InsertSorted(x, r[1..], sort);
      InsertHeadFirst(x, r, sort);
      forall i, j | 0 <= i < j < |res| ensures CompareRecords(res[i], res[j], sort) <= 0.0 {
        if i == 0 {
          assert tail[j - 1] in tail;
        }
      }
    }
  }

  /** When `x` goes past the head of a sorted `r`, that head still comes
      first: it precedes everything `x` is inserted among. */
  lemma InsertHeadFirst(x: Transaction, r: seq<Transaction>, sort: SortState)
    requires SortedBy(r, sort) && r != [] && CompareRecords(x, r[0], sort) > 0.0
    ensures forall y :: y in Insert(x, r[1..], sort) ==> CompareRecords(r[0], y, sort) <= 0.0
  {
    InsertPermutation(x, r[1..], sort);
    CompareAntisymmetric(x, r[0], sort.key, sort.direction);
    forall y | y in Insert(x, r[1..], sort) ensures CompareRecords(r[0], y, sort) <= 0.0 {
      assert y in multiset(Insert(x, r[1..], sort));
      if y != x {
        assert y in r[1..];
        var k :| 0 <= k < |r[1..]| && r[1..][k] == y;
        assert r[k + 1] == y;
      }
    }
  }

  /** Inserting `x` adds it to its own tie class, in front, and leaves
      every other tie class alone. */
  lemma {:induction false} InsertTies(x: Transaction, r: seq<Transaction>, c: Transaction, sort: SortState)
    ensures Ties(Insert(x, r, sort), c, sort)
            == (if CompareRecords(x, c, sort) == 0.0 then [x] else []) + Ties(r, c, sort)
  {
    if r == [] || CompareRecords(x, r[0], sort) <= 0.0 {
      assert ([x] + r)[1..] == r;
    } else {
      InsertTies(x, r[1..], c, sort);
      var tail := Insert(x, r[1..], sort);
      assert ([r[0]] + tail)[1..] == tail;
      if CompareRecords(x, c, sort) == 0.0 && CompareRecords(r[0], c, sort) == 0.0 {
        CompareAntisymmetric(r[0], c, sort.key, sort.direction);
        TieTransitive(x, c, r[0], sort);
        assert false;
      }
    }
  }

  lemma {:induction false} StableSortPermutation(s: seq<Transaction>, sort: SortState)
    ensures multiset(StableSort(s, sort)) == multiset(s)
  {
    if s != [] {
      StableSortPermutation(s[1..], sort);
      InsertPermutation(s[0], StableSort(s[1..], sort), sort);
      assert s == [s[0]] + s[1..];
    }
  }

  lemma {:induction false} StableSortSorted(s: seq<Transaction>, sort: SortState)
    ensures SortedBy(StableSort(s, sort), sort)
  {
    if s != [] {
      StableSortSorted(s[1..], sort);
      InsertSorted(s[0], StableSort(s[1..], sort), sort);
    }
  }

  /** Records that compare equal keep their input order. */
  lemma {:induction false} StableSortStable(s: seq<Transaction>, c: Transaction, sort: SortState)
    ensures Ties(StableSort(s, sort), c, sort) == Ties(s, c, sort)
  {
    if s != [] {
      StableSortStable(s[1..], c, sort);
      InsertTies(s[0], StableSort(s[1..], sort), c, sort);
    }
  }

  lemma {:induction false} TiesMembers(s: seq<Transaction>, c: Transaction, sort: SortState, x: Transaction)
    requires x in Ties(s, c, sort)
    ensures x in s && CompareRecords(x, c, sort) == 0.0
  {
    if s != [] {
      if x != s[0] || CompareRecords(s[0], c, sort) != 0.0 {
        TiesMembers(s[1..], c, sort, x);
      }
    }
  }

  /** Two non-empty sorted sequences with the same tie classes start with
      the same record. */
  lemma SortedTiesSameHead(r: seq<Transaction>, t: seq<Transaction>, sort: SortState)
    requires r != [] && t != []
    requires SortedBy(r, sort) && SortedBy(t, sort)
    requires forall c :: Ties(r, c, sort) == Ties(t, c, sort)
    ensures r[0] == t[0]
  {
    var a, b := r[0], t[0];
    CompareReflexive(a, sort.key, sort.direction);
    CompareReflexive(b, sort.key, sort.direction);
    // a occurs in t and b occurs in r, so each is not after the other
    assert Ties(r, a, sort) == [a] + Ties(r[1..], a, sort);
    assert a in Ties(t, a, sort);
    TiesMembers(t, a, sort, a);
    var ja :| 0 <= ja < |t| && t[ja] == a;
    assert CompareRecords(b, a, sort) <= 0.0;
    assert Ties(t, b, sort) == [b] + Ties(t[1..], b, sort);
    assert b in Ties(r, b, sort);
    TiesMembers(r, b, sort, b);
    var jb :| 0 <= jb < |r| && r[jb] == b;
    assert CompareRecords(a, b, sort) <= 0.0;
    CompareAntisymmetric(a, b, sort.key, sort.direction);
    assert Ties(t, a, sort) == [b] + Ties(t[1..], a, sort);
  }

  /** Dropping a common first record keeps the tie classes equal. */
  lemma TiesOfTails(r: seq<Transaction>, t: seq<Transaction>, c: Transaction, sort: SortState)
    requires r != [] && t != [] && r[0] == t[0]
    requires Ties(r, c, sort) == Ties(t, c, sort)
    ensures Ties(r[1..], c, sort) == Ties(t[1..], c, sort)
  {
    var a := r[0];
    var x, y := Ties(r[1..], c, sort), Ties(t[1..], c, sort);
    if CompareRecords(a, c, sort) == 0.0 {
      assert Ties(r, c, sort) == [a] + x;
      assert Ties(t, c, sort) == [a] + y;
      assert ([a] + x)[1..] == x;
      assert ([a] + y)[1..] == y;
    } else {
      assert Ties(r, c, sort) == x;
      assert Ties(t, c, sort) == y;
    }
  }

  /** The first record is in its own tie class. */
  lemma HeadTies(s: seq<Transaction>, sort: SortState)
    requires s != []
    ensures Ties(s, s[0], sort) != []
  {
    CompareReflexive(s[0], sort.key, sort.direction);
  }

  /** Two sorted sequences with the same tie classes, each in the same
      order, are equal. */
  lemma {:induction false} SortedTiesDetermine(r: seq<Transaction>, t: seq<Transaction>, sort: SortState)
    requires SortedBy(r, sort) && SortedBy(t, sort)
    requires forall c :: Ties(r, c, sort) == Ties(t, c, sort)
    ensures r == t
  {
    if r != [] && t == [] {
      HeadTies(r, sort);
      assert false;
    } else if r == [] && t != [] {
      HeadTies(t, sort);
      assert false;
    } else if r != [] && t != [] {
      SortedTiesSameHead(r, t, sort);
      forall c ensures Ties(r[1..], c, sort) == Ties(t[1..], c, sort) {
        TiesOfTails(r, t, c, sort);
      }
      SortedTiesDetermine(r[1..], t[1..], sort);
      assert r == [r[0]] + r[1..] && t == [t[0]] + t[1..];
    }
  }

  /** Any sorted rearrangement that keeps every tie class in input order
      is the result of `StableSort`: the model does not depend on which
      stable algorithm the runtime uses. */
  lemma StableSortUnique(s: seq<Transaction>, r: seq<Transaction>, sort: SortState)
    requires SortedBy(r, sort)
    requires forall c :: Ties(r, c, sort) == Ties(s, c, sort)
    ensures r == StableSort(s, sort)
  {
    StableSortSorted(s, sort);
    forall c ensures Ties(r, c, sort) == Ties(StableSort(s, sort), c, sort) {
      StableSortStable(s, c, sort);
    }
    SortedTiesDetermine(r, StableSort(s, sort), sort);
  }

  /** The same inputs always give the same output, and the output is a
      fixed point: sorting an already sorted sequence changes nothing. */
  lemma StableSortIdempotent(s: seq<Transaction>, sort: SortState)
    ensures StableSort(StableSort(s, sort), sort) == StableSort(s, sort)
  {
    var r := StableSort(s, sort);
    StableSortSorted(s, sort);
    StableSortUnique(r, r, sort);
  }

  /** Reversing the direction reverses the relative order of records whose
      keys differ: when `a` comes before `b` in the ascending sort, both
      are in the descending sort and `b` comes before `a` there. */
  lemma DirectionReversesOrder(s: seq<Transaction>, key: SortKey, i: int, j: int)
    requires 0 <= i < j < |StableSort(s, SortState(key, Asc))|
    requires !SameKey(StableSort(s, SortState(key, Asc))[i], StableSort(s, SortState(key, Asc))[j], key)
    ensures var asc, desc := StableSort(s, SortState(key, Asc)), StableSort(s, SortState(key, Desc));
            asc[i] in desc && asc[j] in desc
            && forall p, q :: 0 <= p < |desc| && 0 <= q < |desc| && desc[p] == asc[j] && desc[q] == asc[i] ==> p < q
  {
    var asc, desc := StableSort(s, SortState(key, Asc)), StableSort(s, SortState(key, Desc));
    var a, b := asc[i], asc[j];
    StableSortSorted(s, SortState(key, Asc));
    StableSortSorted(s, SortState(key, Desc));
    StableSortPermutation(s, SortState(key, Asc));
    StableSortPermutation(s, SortState(key, Desc));
    assert a in multiset(asc) && b in multiset(asc);
    CompareValuesSign(a, b, key, Asc);
    assert CompareValues(a, b, key, Asc) < 0.0;
    CompareDirection(a, b, key);
    forall p, q | 0 <= p < |desc| && 0 <= q < |desc| && desc[p] == b && desc[q] == a
      ensures p < q
    {
      if p == q {
        CompareReflexive(a, key, Asc);
      }
    }
  }
}
