/** The three scenarios of the pipeline's unit tests, over the same three
    sample records: amount ascending, timestamp descending, and the
    combined status / asset / search filter. */
module Scenarios {
  import opened Types
  import opened JsText
  import opened Comparator
  import opened ViewPipeline

  // 2024-01-01T10:00:00Z, 2024-01-02T10:00:00Z, 2024-01-03T10:00:00Z
  // and the settlement days 2024-01-02, 2024-01-05, 2024-01-04, in ms.
  const TX1: Transaction := Transaction("TX-1", "BTC", Trade, Completed, 2.0, "Alpha", 1704103200000, 1704153600000)
  const TX2: Transaction := Transaction("TX-2", "ETH", Settlement, Pending, 5.0, "Beta", 1704189600000, 1704412800000)
  const TX3: Transaction := Transaction("TX-3", "BTC", Transfer, Completed, 1.0, "Gamma", 1704276000000, 1704326400000)

  const SAMPLE: seq<Transaction> := [TX1, TX2, TX3]

  const BASE_FILTERS: TransactionFilters := TransactionFilters(AllStatuses, ALL_ASSETS, "")

  /** Sorting by amount ascending compares numbers: TX-3 (1), TX-1 (2),
      TX-2 (5). */
  lemma AmountAscending()
    ensures ApplyFiltersAndSorting(SAMPLE, BASE_FILTERS, SortState(Amount, Asc)) == [TX3, TX1, TX2]
  {
    OpenFiltersKeepEverything(SAMPLE, BASE_FILTERS, SortState(Amount, Asc));
    SortByAmount();
  }

  lemma SortByAmount()
    ensures StableSort(SAMPLE, SortState(Amount, Asc)) == [TX3, TX1, TX2]
  {
    var sort := SortState(Amount, Asc);
    assert SAMPLE[1..] == [TX2, TX3] && SAMPLE[1..][1..] == [TX3];
    assert StableSort([TX3], sort) == [TX3];
    assert StableSort([TX2, TX3], sort) == Insert(TX2, [TX3], sort) == [TX3, TX2];
    assert Insert(TX1, [TX2], sort) == [TX1, TX2];
    assert StableSort(SAMPLE, sort) == Insert(TX1, [TX3, TX2], sort) == [TX3, TX1, TX2];
  }

  /** Sorting by timestamp descending puts the latest record, TX-3, first. */
  lemma TimestampDescending()
    ensures var r := ApplyFiltersAndSorting(SAMPLE, BASE_FILTERS, SortState(Timestamp, Desc));
            |r| == 3 && r[0] == TX3
  {
    OpenFiltersKeepEverything(SAMPLE, BASE_FILTERS, SortState(Timestamp, Desc));
    SortByTimestamp();
  }

  lemma SortByTimestamp()
    ensures StableSort(SAMPLE, SortState(Timestamp, Desc)) == [TX3, TX2, TX1]
  {
    var sort := SortState(Timestamp, Desc);
    assert SAMPLE[1..] == [TX2, TX3] && SAMPLE[1..][1..] == [TX3];
    assert StableSort([TX3], sort) == [TX3];
    assert StableSort([TX2, TX3], sort) == Insert(TX2, [TX3], sort) == [TX3, TX2];
    assert Insert(TX1, [TX2], sort) == [TX2, TX1];
    assert StableSort(SAMPLE, sort) == Insert(TX1, [TX3, TX2], sort) == [TX3, TX2, TX1];
  }

  /** Status `Completed`, asset `BTC` and search "gamma" leave exactly
      TX-3: TX-2 is pending, and TX-1's haystack has no letter g. */
  lemma CombinedFilter()
    ensures ApplyFiltersAndSorting(SAMPLE, TransactionFilters(OnlyStatus(Completed), "BTC", "gamma"), SortState(Id, Asc))
            == [TX3]
  {
    var filters := TransactionFilters(OnlyStatus(Completed), "BTC", "gamma");
    OnlyThirdMatches(filters);
    FilterLeavesThird(filters);
    assert StableSort([TX3], SortState(Id, Asc)) == [TX3];
  }

  lemma OnlyThirdMatches(filters: TransactionFilters)
    requires filters == TransactionFilters(OnlyStatus(Completed), "BTC", "gamma")
    ensures !Matches(TX1, filters) && !Matches(TX2, filters) && Matches(TX3, filters)
  {
    assert NormalizedSearch("gamma") == "gamma" by {
      assert Trim("gamma") == "gamma";
    }
    NoGammaInFirst();
    GammaInThird();
  }

  lemma NoGammaInFirst()
    ensures !Contains(Haystack(TX1), "gamma")
  {
    var raw := TX1.id + " " + TX1.asset + " " + TypeName(TX1.txType) + " " + TX1.counterparty + " " + StatusName(TX1.status);
    NoLowerG(raw);
    AbsentFirstChar(Haystack(TX1), "gamma");
  }

  lemma NoLowerG(s: string)
    requires 'g' !in s && 'G' !in s
    ensures 'g' !in ToLower(s)
  {
    forall i | 0 <= i < |s| ensures ToLower(s)[i] != 'g' {
      assert s[i] in s;
    }
  }

  lemma GammaInThird()
    ensures Contains(Haystack(TX3), "gamma")
  {
    var before := TX3.id + " " + TX3.asset + " " + TypeName(TX3.txType) + " ";
    var status := StatusName(TX3.status);
    ToLowerAppend(before + TX3.counterparty + " ", status);
    ToLowerAppend(before + TX3.counterparty, " ");
    ToLowerAppend(before, TX3.counterparty);
    assert ToLower(TX3.counterparty) == "gamma";
    ContainsMiddle(ToLower(before), "gamma", ToLower(" "));
    ContainsExtend(ToLower(before) + "gamma" + ToLower(" "), "gamma", ToLower(status));
  }

  lemma ContainsExtend(h: string, needle: string, tail: string)
    requires Contains(h, needle)
    ensures Contains(h + tail, needle)
  {
    var i :| 0 <= i <= |h| - |needle| && OccursAt(h, needle, i);
    assert (h + tail)[i..i + |needle|] == h[i..i + |needle|];
    assert OccursAt(h + tail, needle, i);
  }

  lemma FilterLeavesThird(filters: TransactionFilters)
    requires !Matches(TX1, filters) && !Matches(TX2, filters) && Matches(TX3, filters)
    ensures Filter(SAMPLE, filters) == [TX3]
  {
    assert SAMPLE[1..] == [TX2, TX3] && SAMPLE[1..][1..] == [TX3] && SAMPLE[1..][1..][1..] == [];
    assert Filter([TX3], filters) == [TX3];
    assert Filter([TX2, TX3], filters) == [TX3];
  }
}
