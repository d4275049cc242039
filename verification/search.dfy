/**
 * The search filter of the launch list: the list shown under a search term is
 * the accumulated launches narrowed to those whose mission name contains the
 * term, ignoring ASCII case; an empty term shows every launch.
 */
module Search {
  import opened Launches

  /** `launches.filter(l => l.mission_name.toLowerCase().includes(term.toLowerCase()))`:
      keeps, in order, the launches that match. */
  function Select(launches: seq<Launch>, term: string): (r: seq<Launch>)
    ensures |r| <= |launches|
    ensures forall i :: 0 <= i < |r| ==> Matches(r[i], term)
    ensures forall x :: x in r ==> x in launches
  {
    if launches == [] then []
    else if Matches(launches[0], term) then [launches[0]] + Select(launches[1..], term)
    else Select(launches[1..], term)
  }

  /** The list the search effect installs: the launches themselves for the
      empty term, the matching launches otherwise. */
  function Filter(launches: seq<Launch>, term: string): (r: seq<Launch>)
    ensures |r| <= |launches|
    ensures forall i :: 0 <= i < |r| ==> Matches(r[i], term)
    ensures forall x :: x in r ==> x in launches
  {
    if term == "" then launches else Select(launches, term)
  }

  /** `a` is obtained from `b` by deleting elements, keeping the order of the rest. */
  ghost predicate IsSubsequence<T>(a: seq<T>, b: seq<T>)
    decreases |b|
  {
    a == [] ||
    (b != [] && ((a[0] == b[0] && IsSubsequence(a[1..], b[1..])) || IsSubsequence(a, b[1..])))
  }

  /** Narrowing by the empty term would select every launch, so the empty-term
      branch of the filter only short-cuts what the general branch computes. */
  lemma {:induction false} SelectEmptyTermIsIdentity(launches: seq<Launch>)
    ensures Select(launches, "") == launches
  {
    if launches != [] {
      EveryLaunchMatchesEmptyTerm(launches[0]);
      SelectEmptyTermIsIdentity(launches[1..]);
      assert launches == [launches[0]] + launches[1..];
    }
  }

  lemma FilterEmptyTermIsIdentity(launches: seq<Launch>)
    ensures Filter(launches, "") == launches
    ensures Filter(launches, "") == Select(launches, "")
  {
    SelectEmptyTermIsIdentity(launches);
  }

  /** Both branches of the filter are the same selection. */
  lemma FilterIsSelect(launches: seq<Launch>, term: string)
    ensures Filter(launches, term) == Select(launches, term)
  {
    if term == "" {
      SelectEmptyTermIsIdentity(launches);
    }
  }

  lemma {:induction false} SelectIsSubsequence(launches: seq<Launch>, term: string)
    ensures IsSubsequence(Select(launches, term), launches)
  {
    if launches != [] {
      SelectIsSubsequence(launches[1..], term);
      var r := Select(launches, term);
      if Matches(launches[0], term) {
        assert r[0] == launches[0] && r[1..] == Select(launches[1..], term);
      } else if r != [] {
        assert r == Select(launches[1..], term);
      }
    }
  }

  /** The filtered list keeps launches in their accumulated order and never
      adds one: it is a subsequence of the accumulated launches. */
  lemma FilterIsSubsequence(launches: seq<Launch>, term: string)
    ensures IsSubsequence(Filter(launches, term), launches)
    ensures |Filter(launches, term)| <= |launches|
  {
    FilterIsSelect(launches, term);
    SelectIsSubsequence(launches, term);
  }

  lemma {:induction false} SelectCounts(launches: seq<Launch>, term: string)
    ensures forall x :: multiset(Select(launches, term))[x] ==
                        if Matches(x, term) then multiset(launches)[x] else 0
  {
    if launches != [] {
      SelectCounts(launches[1..], term);
      assert launches == [launches[0]] + launches[1..];
      assert multiset(launches) == multiset{launches[0]} + multiset(launches[1..]);
    }
  }

  /** Every matching launch is kept as often as it occurs, every other launch
      is dropped: with `FilterIsSubsequence` this pins the filtered list down. */
  lemma FilterKeepsExactlyTheMatches(launches: seq<Launch>, term: string)
    ensures forall x :: multiset(Filter(launches, term))[x] ==
                        if Matches(x, term) then multiset(launches)[x] else 0
    ensures forall x :: x in Filter(launches, term) <==> x in launches && Matches(x, term)
  {
    FilterIsSelect(launches, term);
    SelectCounts(launches, term);
    forall x
      ensures x in Filter(launches, term) <==> x in launches && Matches(x, term)
    {
      assert x in Filter(launches, term) <==> multiset(Filter(launches, term))[x] > 0;
      assert x in launches <==> multiset(launches)[x] > 0;
    }
  }

  lemma {:induction false} SelectAppend(a: seq<Launch>, b: seq<Launch>, term: string)
    ensures Select(a + b, term) == Select(a, term) + Select(b, term)
  {
    if a == [] {
      assert a + b == b;
    } else {
      var ab := a + b;
      assert ab[0] == a[0] && ab[1..] == a[1..] + b;
      SelectAppend(a[1..], b, term);
      var rest := Select(a[1..], term) + Select(b, term);
      assert Select(ab[1..], term) == rest;
      if Matches(a[0], term) {
        assert Select(ab, term) == [a[0]] + rest;
        assert Select(a, term) == [a[0]] + Select(a[1..], term);
      } else {
        assert Select(ab, term) == rest;
        assert Select(a, term) == Select(a[1..], term);
      }
    }
  }

  /** Filtering distributes over appending a fetched page: the settled list
      after a page arrives is the old filtered list followed by the page's
      matches. */
  lemma FilterAppend(a: seq<Launch>, b: seq<Launch>, term: string)
    ensures Filter(a + b, term) == Filter(a, term) + Filter(b, term)
  {
    if term != "" {
      SelectAppend(a, b, term);
    }
  }

  lemma {:induction false} SelectIdempotent(launches: seq<Launch>, term: string)
    ensures Select(Select(launches, term), term) == Select(launches, term)
  {
    if launches != [] {
      SelectIdempotent(launches[1..], term);
      var r := Select(launches, term);
      if Matches(launches[0], term) {
        assert r[0] == launches[0] && r[1..] == Select(launches[1..], term);
      }
    }
  }

  /** Setting the same term twice gives the list that setting it once gives. */
  lemma FilterIdempotent(launches: seq<Launch>, term: string)
    ensures Filter(Filter(launches, term), term) == Filter(launches, term)
  {
    if term != "" {
      SelectIdempotent(launches, term);
    }
  }

  lemma {:induction false} SelectIgnoresTermCase(launches: seq<Launch>, t1: string, t2: string)
    requires ToLower(t1) == ToLower(t2)
    ensures Select(launches, t1) == Select(launches, t2)
  {
    if launches != [] {
      MatchesIgnoresTermCase(launches[0], t1, t2);
      SelectIgnoresTermCase(launches[1..], t1, t2);
    }
  }

  /** Terms that differ only in ASCII case show the same list. */
  lemma FilterIgnoresTermCase(launches: seq<Launch>, t1: string, t2: string)
    requires ToLower(t1) == ToLower(t2)
    ensures Filter(launches, t1) == Filter(launches, t2)
  {
    ToLowerEmpty(t1);
    ToLowerEmpty(t2);
    SelectIgnoresTermCase(launches, t1, t2);
  }

  lemma {:induction false} SelectKeepsAllWhenAllMatch(launches: seq<Launch>, term: string)
    requires forall i :: 0 <= i < |launches| ==> Matches(launches[i], term)
    ensures Select(launches, term) == launches
  {
    if launches != [] {
      SelectKeepsAllWhenAllMatch(launches[1..], term);
      assert launches == [launches[0]] + launches[1..];
    }
  }

  /** A fetched page is appended to the shown rows raw before the search
      effect re-derives them. Given rows that were settled, the raw append
      already equals the settled list exactly when the term is empty or every
      launch of the page matches it; otherwise the effect has rows to drop. */
  lemma RawAppendIsSettledIff(launches: seq<Launch>, data: seq<Launch>, term: string)
    ensures Filter(launches, term) + data == Filter(launches + data, term) <==>
            term == "" || forall i :: 0 <= i < |data| ==> Matches(data[i], term)
  {
    FilterAppend(launches, data, term);
    if term != "" && forall i :: 0 <= i < |data| ==> Matches(data[i], term) {
      SelectKeepsAllWhenAllMatch(data, term);
    }
    if term != "" && Filter(launches, term) + data == Filter(launches + data, term) {
      var f := Filter(launches, term);
      assert (f + data)[|f|..] == data;
      assert (f + Select(data, term))[|f|..] == Select(data, term);
    }
  }
}
