/** Pagination: `clampPage`, the page count `Math.ceil(total / pageSize)`
    that `recomputeState` clamps against, the provider's displayed page
    count `Math.max(1, ...)`, and the page slice
    `filteredTransactions.slice(start, end)`. */
module Pagination {
  import opened JsMath

  /** Keep a page number inside `1..totalPages`; 1 when there are no pages. */
  function ClampPage(page: int, totalPages: nat): (r: int)
    ensures totalPages == 0 ==> r == 1
    ensures totalPages > 0 ==> 1 <= r <= totalPages
    ensures 1 <= page <= totalPages ==> r == page
    ensures totalPages > 0 && page < 1 ==> r == 1
    ensures page > totalPages > 0 ==> r == totalPages
  {
    if totalPages == 0 then 1 else Min(Max(1, page), totalPages)
  }

  /** `Math.ceil(count / pageSize)` for a positive integer page size. */
  function TotalPages(count: nat, pageSize: int): (r: nat)
    requires pageSize > 0
    ensures r == 0 <==> count == 0
  {
    var q := count / pageSize;
    if count % pageSize == 0 then q else q + 1
  }

  /** The page count is the least number of pages that holds every row:
      `r` pages of `pageSize` rows hold `count`, `r - 1` pages do not. */
  lemma TotalPagesBounds(count: nat, pageSize: int)
    requires pageSize > 0
    ensures count <= TotalPages(count, pageSize) * pageSize
    ensures TotalPages(count, pageSize) == 0 || (TotalPages(count, pageSize) - 1) * pageSize < count
  {
    var q, m := count / pageSize, count % pageSize;
    assert count == q * pageSize + m;
    if m != 0 {
      assert (q + 1) * pageSize == q * pageSize + pageSize;
    }
  }

  /** The page count the provider displays: never below 1. */
  function DisplayedTotalPages(count: nat, pageSize: int): (r: nat)
    requires pageSize > 0
    ensures r >= 1 && r >= TotalPages(count, pageSize)
    ensures count > 0 ==> r == TotalPages(count, pageSize)
    ensures count == 0 ==> r == 1
  {
    Max(1, TotalPages(count, pageSize))
  }

  /** How `Array.prototype.slice` reads an index: negative counts from
      the end, everything is clamped into `0..len`. */
  function SliceIndex(i: int, len: nat): (r: nat)
    ensures r <= len
  {
    if i < 0 then Max(len + i, 0) else Min(i, len)
  }

  /** `s.slice(start, end)`. */
  function Slice<T>(s: seq<T>, start: int, end: int): seq<T> {
    var from, to := SliceIndex(start, |s|), SliceIndex(end, |s|);
    if from < to then s[from..to] else []
  }

  /** `page` is a valid page for `totalPages` pages: 1 when there are none. */
  predicate PageInRange(page: int, totalPages: nat) {
    if totalPages == 0 then page == 1 else 1 <= page <= totalPages
  }

  function PageStart(page: int, pageSize: int): int {
    (page - 1) * pageSize
  }

  /** The rows shown on `page`. */
  function PageSlice<T>(s: seq<T>, page: int, pageSize: int): seq<T> {
    var start := PageStart(page, pageSize);
    Slice(s, start, start + pageSize)
  }

  /** Pages `1..k` laid end to end. */
  function JoinPages<T>(s: seq<T>, pageSize: int, k: nat): seq<T> {
    if k == 0 then [] else JoinPages(s, pageSize, k - 1) + PageSlice(s, k, pageSize)
  }

  // ---------------------------------------------------------------- lemmas

  /** Clamping twice is clamping once. */
  lemma ClampPageIdempotent(page: int, totalPages: nat)
    ensures ClampPage(ClampPage(page, totalPages), totalPages) == ClampPage(page, totalPages)
  {
  }

  /** A valid page is the contiguous run of at most `pageSize` rows that
      starts at `(page - 1) * pageSize`. */
  lemma PageSliceIsSegment<T>(s: seq<T>, page: int, pageSize: int)
    requires pageSize > 0 && page >= 1
    ensures PageStart(page, pageSize) >= 0
    ensures PageSlice(s, page, pageSize)
            == s[Min(PageStart(page, pageSize), |s|)..Min(PageStart(page, pageSize) + pageSize, |s|)]
    ensures |PageSlice(s, page, pageSize)| <= pageSize
  {
    MulMonotone(0, page - 1, pageSize);
  }

  /** Every page from 1 to the page count holds at least one row. */
  lemma PageSliceNonEmpty<T>(s: seq<T>, page: int, pageSize: int)
    requires pageSize > 0 && 1 <= page <= TotalPages(|s|, pageSize)
    ensures PageSlice(s, page, pageSize) != []
  {
    PageSliceIsSegment(s, page, pageSize);
    var t := TotalPages(|s|, pageSize);
    TotalPagesBounds(|s|, pageSize);
    MulMonotone(page - 1, t - 1, pageSize);
  }

  /** The first `k` pages are the first `k * pageSize` rows. */
  lemma {:induction false} JoinPagesPrefix<T>(s: seq<T>, pageSize: int, k: nat)
    requires pageSize > 0
    ensures JoinPages(s, pageSize, k) == s[..Min(k * pageSize, |s|)]
  {
    if k > 0 {
      JoinPagesPrefix(s, pageSize, k - 1);
      PageSliceIsSegment(s, k, pageSize);
      assert PageStart(k, pageSize) + pageSize == k * pageSize;
      MulMonotone(0, k - 1, pageSize);
      PrefixThenSegment(s, Min((k - 1) * pageSize, |s|), Min(k * pageSize, |s|));
    }
  }

  /** A prefix followed by the segment that starts where it ends is the
      longer prefix. */
  lemma PrefixThenSegment<T>(s: seq<T>, a: int, b: int)
    requires 0 <= a <= b <= |s|
    ensures s[..a] + s[a..b] == s[..b]
  {
  }

  /** Laying the displayed pages end to end gives back the whole
      sequence: the pages cover every row, in order, exactly once. */
  lemma PagesReassemble<T>(s: seq<T>, pageSize: int)
    requires pageSize > 0
    ensures JoinPages(s, pageSize, DisplayedTotalPages(|s|, pageSize)) == s
  {
    var k := DisplayedTotalPages(|s|, pageSize);
    TotalPagesBounds(|s|, pageSize);
    JoinPagesPrefix(s, pageSize, k);
    MulMonotone(1, k, pageSize);
    assert Min(k * pageSize, |s|) == |s|;
  }

  /** Row `i` is on exactly one page: the page `i / pageSize + 1`, at
      offset `i % pageSize`, and on no other page. */
  lemma PageOfRow<T>(s: seq<T>, pageSize: int, i: int, q: int)
    requires pageSize > 0 && 0 <= i < |s| && q >= 1
    ensures var p := i / pageSize + 1;
            1 <= p <= TotalPages(|s|, pageSize)
            && |PageSlice(s, p, pageSize)| > i % pageSize
            && PageSlice(s, p, pageSize)[i % pageSize] == s[i]
            && (q != p ==> !(PageStart(q, pageSize) <= i < PageStart(q, pageSize) + pageSize))
  {
    var p := i / pageSize + 1;
    var t := TotalPages(|s|, pageSize);
    TotalPagesBounds(|s|, pageSize);
    assert PageStart(p, pageSize) == i - i % pageSize;
    PageSliceIsSegment(s, p, pageSize);
    if p > t {
      MulMonotone(t, p - 1, pageSize);
    }
    if q < p {
      MulMonotone(q, p - 1, pageSize);
      assert PageStart(q, pageSize) + pageSize == q * pageSize;
    } else if q > p {
      MulMonotone(p, q - 1, pageSize);
      assert PageStart(p, pageSize) + pageSize == p * pageSize;
    }
  }

  /** A page in range is non-empty exactly when there are rows, holds at
      most `pageSize` of them, and lists the rows from its start on. */
  lemma ValidPageShape<T>(s: seq<T>, page: int, pageSize: int)
    requires pageSize > 0 && PageInRange(page, TotalPages(|s|, pageSize))
    ensures |PageSlice(s, page, pageSize)| <= pageSize
    ensures PageSlice(s, page, pageSize) == [] <==> s == []
    ensures forall k :: 0 <= k < |PageSlice(s, page, pageSize)| ==>
              0 <= PageStart(page, pageSize) + k < |s|
              && PageSlice(s, page, pageSize)[k] == s[PageStart(page, pageSize) + k]
  {
    PageSliceIsSegment(s, page, pageSize);
    if s != [] {
      PageSliceNonEmpty(s, page, pageSize);
    }
  }
}
