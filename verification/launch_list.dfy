/**
 * The state of the infinite-scroll launch list and its three events: a fetch
 * completes, the last shown row becomes visible, the search term changes.
 *
 * Each event is one atomic step; the React state cells become fields of one
 * object.
 */
module LaunchList {
  import opened Options
  import opened Launches
  import opened Search
  import opened Pagination
  import opened Render

  /** How a page fetch ended: the API returned an array (possibly empty), or
      the request or the parsing of its body failed. */
  datatype FetchOutcome = Received(data: seq<Launch>) | Failed

  class SpaceXLaunches {
    /** Every launch fetched so far, in arrival order. */
    var launches: seq<Launch>
    /** The rows shown. */
    var filteredLaunches: seq<Launch>
    var searchTerm: string
    /** A page fetch is outstanding. */
    var loading: bool
    /** The page most recently requested. */
    var page: int
    /** No fetch has returned an empty array yet. */
    var hasMore: bool
    /** The pages requested so far, in request order. */
    ghost var requested: seq<int>

    /** The cursor is a positive page number and pages 1..page were requested
        once each, in increasing order. */
    ghost predicate Valid()
      reads this
    {
      page >= 1 && RequestedUpTo(page)
    }

    ghost predicate RequestedUpTo(n: int)
      reads this
    {
      |requested| == n && forall i :: 0 <= i < |requested| ==> requested[i] == i + 1
    }

    /** The shown rows are those the search effect derives from the state. */
    ghost predicate Settled()
      reads this
    {
      filteredLaunches == Filter(launches, searchTerm)
    }

    /** The notices rendered under the rows in the current state. */
    function CurrentNotices(): Notices
      reads this
    {
      NoticesFor(loading, hasMore, |filteredLaunches|)
    }

    /** Settled and idle under a non-empty term, "No results found" shows
        exactly when no fetched launch matches the term. */
    lemma NoResultsIffNothingMatches()
      requires Settled() && !loading && searchTerm != ""
      ensures CurrentNotices().noResults <==> forall x :: x in launches ==> !Matches(x, searchTerm)
    {
      FilterKeepsExactlyTheMatches(launches, searchTerm);
      if filteredLaunches != [] {
        assert filteredLaunches[0] in filteredLaunches;
      }
    }

    /** Settled and idle under the empty term, "No results found" shows
        exactly when nothing has been fetched. */
    lemma NoResultsIffNothingFetched()
      requires Settled() && !loading && searchTerm == ""
      ensures CurrentNotices().noResults <==> launches == []
    {
      FilterEmptyTermIsIdentity(launches);
    }

    /** Mounting: the initial state cells, then the page effect requests page 1. */
    constructor ()
      ensures Valid() && Settled()
      ensures launches == [] && filteredLaunches == [] && searchTerm == ""
      ensures loading && page == 1 && hasMore
      ensures requested == [1]
    {
      launches := [];
      filteredLaunches := [];
      searchTerm := "";
      loading := true;
      page := 1;
      hasMore := true;
      requested := [];
      new;
      var _ := RequestPage();
    }

    /** The page effect: a new cursor value starts `fetchLaunches(page)`,
        which raises `loading` and asks for the page's window. */
    method RequestPage() returns (request: Request)
      requires page >= 1 && RequestedUpTo(page - 1)
      modifies this`loading, this`requested
      ensures Valid()
      ensures loading
      ensures requested == old(requested) + [page]
      ensures request == RequestFor(page)
    {
      loading := true;
      requested := requested + [page];
      request := RequestFor(page);
    }

    /** The completion part of `fetchLaunches`: an empty array ends paging, a
        non-empty one is appended to the launches and, raw, to the shown rows;
        a failure is swallowed. Every outcome clears `loading`. */
    method ApplyFetchResult(outcome: FetchOutcome)
      requires Valid()
      modifies this`launches, this`filteredLaunches, this`hasMore, this`loading
      ensures Valid()
      ensures !loading
      ensures hasMore ==> old(hasMore)
      ensures match outcome
        case Received(data) =>
          if |data| == 0 then
            launches == old(launches) && filteredLaunches == old(filteredLaunches) && !hasMore
          else
            launches == old(launches) + data && filteredLaunches == old(filteredLaunches) + data &&
            hasMore == old(hasMore)
        case Failed =>
          launches == old(launches) && filteredLaunches == old(filteredLaunches) &&
          hasMore == old(hasMore)
    {
      match outcome
      case Received(data) =>
        if |data| == 0 {
          hasMore := false;
        } else {
          launches := launches + data;
          filteredLaunches := filteredLaunches + data;
        }
        loading := false;
      case Failed =>
        loading := false;
    }

    /** The search effect, run whenever `searchTerm` or `launches` changes. */
    method SyncFilteredLaunches()
      modifies this`filteredLaunches
      ensures Settled()
    {
      if searchTerm == "" {
        filteredLaunches := launches;
      } else {
        filteredLaunches := Select(launches, searchTerm);
      }
    }

    /** A fetch completes and the search effect then re-derives the rows, so
        the rows appended raw by the completion end up narrowed to the page's
        matches. */
    method FetchCompleted(outcome: FetchOutcome)
      requires Valid() && Settled()
      modifies this`launches, this`filteredLaunches, this`hasMore, this`loading
      ensures Valid() && Settled()
      ensures !loading && !CurrentNotices().loadingIndicator
      ensures hasMore ==> old(hasMore)
      ensures CurrentNotices().noMoreData <==> !hasMore
      ensures match outcome
        case Received(data) =>
          if |data| == 0 then
            launches == old(launches) && filteredLaunches == old(filteredLaunches) && !hasMore &&
            CurrentNotices().noMoreData
          else
            launches == old(launches) + data &&
            filteredLaunches == old(filteredLaunches) + Filter(data, searchTerm) &&
            hasMore == old(hasMore)
        case Failed =>
          launches == old(launches) && filteredLaunches == old(filteredLaunches) &&
          hasMore == old(hasMore)
    {
      ApplyFetchResult(outcome);
      SyncFilteredLaunches();
      if outcome.Received? && |outcome.data| > 0 {
        FilterAppend(old(launches), outcome.data, searchTerm);
      }
    }

    /** The last shown row became visible. This is the guard the component
        intends: an event counts only while nothing is loading and a last row
        is shown, and it advances the cursor only while more data may exist;
        the new cursor value requests the next page. */
    method OnLastItemVisible() returns (request: Option<Request>)
      requires Valid()
      modifies this`page, this`loading, this`requested
      ensures Valid()
      ensures request.Some? <==> !old(loading) && old(hasMore) && LastItemIndex(|filteredLaunches|).Some?
      ensures request.Some? ==>
                page == old(page) + 1 && loading && requested == old(requested) + [page] &&
                request == Some(RequestFor(page))
      ensures request.None? ==>
                page == old(page) && loading == old(loading) && requested == old(requested)
    {
      if loading || LastItemIndex(|filteredLaunches|).None? {
        return None;
      }
      if hasMore {
        page := page + 1;
        var r := RequestPage();
        request := Some(r);
      } else {
        request := None;
      }
    }

    /** The search box changed: the term is replaced and the search effect
        re-derives the rows; nothing is fetched. */
    method SetSearchTerm(term: string)
      modifies this`searchTerm, this`filteredLaunches
      ensures searchTerm == term
      ensures Settled()
      ensures filteredLaunches == Filter(launches, term)
    {
      searchTerm := term;
      SyncFilteredLaunches();
    }
  }
}
