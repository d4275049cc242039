/**
 * Event sequences of the launch list, each stated by what it leaves behind.
 */
module Scenarios {
  import opened Options
  import opened Launches
  import opened Search
  import opened Pagination
  import opened Render
  import opened LaunchList

  /** Pages 1 to 3 bring ten launches each and page 4 brings none: thirty
      launches remain, paging has ended, and a further visible last row
      requests nothing. */
  method ThreeFullPagesThenExhausted(p1: seq<Launch>, p2: seq<Launch>, p3: seq<Launch>)
    returns (count: nat, more: bool, cursor: int, after: Option<Request>, notices: Notices)
    requires |p1| == 10 && |p2| == 10 && |p3| == 10
    ensures count == 30 && !more && cursor == 4 && after == None
    ensures notices == Notices(false, true, false)
  {
    var list := new SpaceXLaunches();
    list.FetchCompleted(Received(p1));
    var r := list.OnLastItemVisible();
    list.FetchCompleted(Received(p2));
    r := list.OnLastItemVisible();
    list.FetchCompleted(Received(p3));
    r := list.OnLastItemVisible();
    assert r == Some(Request(10, 30));
    list.FetchCompleted(Received([]));
    after := list.OnLastItemVisible();
    count, more, cursor := |list.launches|, list.hasMore, list.page;
    notices := list.CurrentNotices();
  }

  /** Page 2 fails: nothing is lost, paging goes on, and the next visible last
      row requests page 3 (offset 20), so page 2 is never asked for again. */
  method FailedPageIsSkipped(p1: seq<Launch>)
    returns (count: nat, more: bool, retry: Option<Request>)
    requires |p1| > 0
    ensures count == |p1| && more
    ensures retry == Some(Request(10, 20))
  {
    var list := new SpaceXLaunches();
    list.FetchCompleted(Received(p1));
    var r := list.OnLastItemVisible();
    assert r == Some(Request(10, 10));
    list.FetchCompleted(Failed);
    assert !list.loading;
    retry := list.OnLastItemVisible();
    assert list.requested == [1, 2, 3];
    count, more := |list.launches|, list.hasMore;
  }

  /** While page 2 is loading, a second visible-row event requests nothing. */
  method DuplicateEventWhileLoading(p1: seq<Launch>)
    returns (first: Option<Request>, second: Option<Request>)
    requires |p1| > 0
    ensures first == Some(Request(10, 10)) && second == None
  {
    var list := new SpaceXLaunches();
    list.FetchCompleted(Received(p1));
    first := list.OnLastItemVisible();
    second := list.OnLastItemVisible();
  }

  lemma LowerFalcon(d: char)
    requires '0' <= d <= '9'
    ensures ToLower("Falcon " + [d]) == "falcon " + [d]
    ensures ToLower("falcon " + [d]) == "falcon " + [d]
  {
    var upper, lower := "Falcon " + [d], "falcon " + [d];
    assert |ToLower(upper)| == 8 && |ToLower(lower)| == 8;
    forall i | 0 <= i < 8
      ensures ToLower(upper)[i] == lower[i] && ToLower(lower)[i] == lower[i]
    {
    }
  }

  /** The term "falcon 9" matches the mission "Falcon 9" and not "Falcon 1". */
  lemma FalconMatches()
    ensures Matches(Launch(2, "Falcon 9", "2010"), "falcon 9")
    ensures !Matches(Launch(1, "Falcon 1", "2006"), "falcon 9")
  {
    LowerFalcon('9');
    LowerFalcon('1');
    assert "Falcon 9" == "Falcon " + ['9'];
    assert "Falcon 1" == "Falcon " + ['1'];
    assert "falcon 9" == "falcon " + ['9'];
    var hay := "falcon " + ['1'];
    assert hay[7] != ("falcon " + ['9'])[7];
    assert !Includes(hay[1..], "falcon " + ['9']);
  }

  /** Searching "falcon 9" over "Falcon 1" and "Falcon 9" shows only the latter. */
  method FalconSearch() returns (shown: seq<Launch>)
    ensures shown == [Launch(2, "Falcon 9", "2010")]
  {
    var falcon1, falcon9 := Launch(1, "Falcon 1", "2006"), Launch(2, "Falcon 9", "2010");
    var list := new SpaceXLaunches();
    list.FetchCompleted(Received([falcon1, falcon9]));
    list.SetSearchTerm("falcon 9");
    FalconMatches();
    assert list.launches == [falcon1, falcon9];
    assert Select([falcon9], "falcon 9") == [falcon9] + Select([], "falcon 9");
    assert [falcon1, falcon9][1..] == [falcon9];
    assert Select([falcon1, falcon9], "falcon 9") == Select([falcon9], "falcon 9");
    shown := list.filteredLaunches;
  }
}
