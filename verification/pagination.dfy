/**
 * The request window of a page: the launch list asks the API for `limit=10`
 * launches starting at `offset=(page-1)*10`.
 */
module Pagination {

  const PageSize: nat := 10

  /** The query parameters of one page request. */
  datatype Request = Request(limit: nat, offset: int)

  function Offset(page: int): (r: int)
    ensures r % PageSize == 0
    ensures page >= 1 ==> r >= 0
    ensures r / PageSize == page - 1
  {
    (page - 1) * PageSize
  }

  /** The window of `page`: ten positions, the page recoverable from the offset. */
  function RequestFor(page: int): (r: Request)
    ensures r.limit == PageSize
    ensures r.offset / r.limit + 1 == page
    ensures page >= 1 ==> r.offset >= 0
  {
    Request(PageSize, Offset(page))
  }

  /** Absolute position `k` of the upstream list falls in the window of `page`. */
  predicate InWindow(k: int, page: int) {
    RequestFor(page).offset <= k < RequestFor(page).offset + RequestFor(page).limit
  }

  /** Pages from 1 on never ask for a negative offset; page 1 starts at 0. */
  lemma OffsetNonNegative(page: int)
    requires page >= 1
    ensures RequestFor(page).offset >= 0
    ensures page == 1 ==> RequestFor(page).offset == 0
  {
  }

  /** The next page's window starts exactly where this page's window ends. */
  lemma ConsecutiveWindowsAdjacent(page: int)
    ensures RequestFor(page + 1).offset == RequestFor(page).offset + RequestFor(page).limit
  {
  }

  /** Two different pages never ask for the same position. */
  lemma WindowsDisjoint(p: int, q: int, k: int)
    requires p != q
    ensures !(InWindow(k, p) && InWindow(k, q))
  {
  }

  /** Every position from 0 on is asked for by exactly one page from 1 on, the
      page `k / 10 + 1`. */
  lemma PageOfPosition(k: nat) returns (page: int)
    ensures page >= 1 && InWindow(k, page)
    ensures forall q :: InWindow(k, q) ==> q == page
  {
    page := k / PageSize + 1;
    assert InWindow(k, page);
    forall q | InWindow(k, q)
      ensures q == page
    {
      if q != page {
        WindowsDisjoint(q, page, k);
      }
    }
  }

  /** Requesting pages 1 to n asks for exactly positions 0 to 10n - 1. */
  lemma FirstPagesCover(n: nat, k: int)
    ensures (exists p :: 1 <= p <= n && InWindow(k, p)) <==> 0 <= k < n * PageSize
  {
    if 0 <= k < n * PageSize {
      var p := k / PageSize + 1;
      assert 1 <= p <= n && InWindow(k, p);
    }
    if exists p :: 1 <= p <= n && InWindow(k, p) {
      var p :| 1 <= p <= n && InWindow(k, p);
      assert (p - 1) * PageSize <= (n - 1) * PageSize;
    }
  }
}
