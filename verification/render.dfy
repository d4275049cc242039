/**
 * What the launch list renders below its rows, and which row carries the
 * reference the visibility observer watches.
 */
module Render {
  import opened Options

  /** The three notices that may appear under the list. */
  datatype Notices = Notices(loadingIndicator: bool, noMoreData: bool, noResults: bool)

  /** "Loading..." while a fetch is outstanding; "No more data to load." once
      the API ran dry and nothing is loading; "No results found" whenever the
      shown list is empty and nothing is loading, whatever the search term. */
  function NoticesFor(loading: bool, hasMore: bool, shownCount: nat): (n: Notices)
    ensures n.loadingIndicator <==> loading
    ensures n.noMoreData <==> !hasMore && !loading
    ensures n.noResults <==> shownCount == 0 && !loading
  {
    Notices(loading, !hasMore && !loading, shownCount == 0 && !loading)
  }

  /** While loading, the indicator is the only notice. */
  lemma LoadingHidesOtherNotices(hasMore: bool, shownCount: nat)
    ensures NoticesFor(true, hasMore, shownCount) == Notices(true, false, false)
  {
  }

  /** With nothing loading, more data available and rows shown, no notice at all. */
  lemma SteadyListShowsNoNotice(shownCount: nat)
    requires shownCount > 0
    ensures NoticesFor(false, true, shownCount) == Notices(false, false, false)
  {
  }

  /** An exhausted source with an empty list shows both end notices at once. */
  lemma ExhaustedEmptyListShowsBoth()
    ensures NoticesFor(false, false, 0) == Notices(false, true, true)
  {
  }

  /** The row at `index` of a list of `count` rows is the last one. */
  predicate IsLastItem(index: nat, count: nat)
    ensures IsLastItem(index, count) ==> index < count
    ensures IsLastItem(index, count) <==> count > 0 && index + 1 == count
  {
    index == count - 1
  }

  /** The row that carries the observed reference, if any row is shown. */
  function LastItemIndex(count: nat): (r: Option<nat>)
    ensures r.None? <==> count == 0
    ensures r.Some? ==> r.value < count && IsLastItem(r.value, count)
    ensures forall i :: 0 <= i < count && IsLastItem(i, count) ==> r == Some(i)
  {
    if count == 0 then None else Some(count - 1)
  }
}
