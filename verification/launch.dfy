/**
 * One launch record as the launch list reads it from the launch API, and the
 * case-insensitive substring test the search box applies to its mission name.
 *
 * Lower-casing is restricted to ASCII letters: `A`..`Z` map to `a`..`z`, every
 * other character maps to itself.
 */
module Launches {

  /** The three fields of an API launch object the page uses: the list key,
      the searched and displayed name, and the displayed year. */
  datatype Launch = Launch(flightNumber: int, missionName: string, launchYear: string)

  predicate IsUpper(c: char) {
    'A' <= c <= 'Z'
  }

  function LowerChar(c: char): (r: char)
    ensures !IsUpper(r)
    ensures !IsUpper(c) ==> r == c
    ensures IsUpper(c) ==> r as int == c as int + 32
  {
    if IsUpper(c) then (c as int + 32) as char else c
  }

  /** `s.toLowerCase()` on ASCII text. */
  function ToLower(s: string): (r: string)
    ensures |r| == |s|
    ensures forall i :: 0 <= i < |r| ==> !IsUpper(r[i])
    ensures forall i :: 0 <= i < |s| && !IsUpper(s[i]) ==> r[i] == s[i]
    ensures forall i :: 0 <= i < |s| && IsUpper(s[i]) ==> r[i] as int == s[i] as int + 32
  {
    seq(|s|, i requires 0 <= i < |s| => LowerChar(s[i]))
  }

  lemma ToLowerIdempotent(s: string)
    ensures ToLower(ToLower(s)) == ToLower(s)
  {
  }

  lemma ToLowerEmpty(s: string)
    ensures ToLower(s) == "" <==> s == ""
  {
  }

  /** `hay.includes(needle)`: does `needle` occur in `hay` at some position? */
  function Includes(hay: string, needle: string): (r: bool)
    ensures r ==> |needle| <= |hay|
    ensures needle == "" ==> r
  {
    if needle <= hay then true
    else if hay == [] then false
    else Includes(hay[1..], needle)
  }

  /** The reference meaning of substring: a window of `hay` equals `needle`. */
  ghost predicate OccursAt(hay: string, needle: string, i: int) {
    0 <= i && i + |needle| <= |hay| && hay[i..i + |needle|] == needle
  }

  lemma {:induction false} IncludesMeansOccurs(hay: string, needle: string)
    ensures Includes(hay, needle) <==> exists i :: OccursAt(hay, needle, i)
    decreases |hay|
  {
    if needle <= hay {
      assert OccursAt(hay, needle, 0);
    } else if hay == [] {
    } else {
      IncludesMeansOccurs(hay[1..], needle);
      if exists i :: OccursAt(hay[1..], needle, i) {
        var i :| OccursAt(hay[1..], needle, i);
        assert hay[i + 1..i + 1 + |needle|] == hay[1..][i..i + |needle|];
        assert OccursAt(hay, needle, i + 1);
      }
      if exists i :: OccursAt(hay, needle, i) {
        var i :| OccursAt(hay, needle, i);
        assert i != 0;
        assert hay[1..][i - 1..i - 1 + |needle|] == hay[i..i + |needle|];
        assert OccursAt(hay[1..], needle, i - 1);
      }
    }
  }

  /** The search predicate: the lower-cased mission name contains the
      lower-cased search term. */
  predicate Matches(launch: Launch, term: string)
    ensures term == "" ==> Matches(launch, term)
    ensures Matches(launch, term) ==> |term| <= |launch.missionName|
  {
    Includes(ToLower(launch.missionName), ToLower(term))
  }

  lemma EveryLaunchMatchesEmptyTerm(launch: Launch)
    ensures Matches(launch, "")
  {
  }

  /** The match depends on the term only through its lower-cased form, so the
      search is case-insensitive in the term as well as in the name. */
  lemma MatchesIgnoresTermCase(launch: Launch, t1: string, t2: string)
    requires ToLower(t1) == ToLower(t2)
    ensures Matches(launch, t1) == Matches(launch, t2)
  {
  }
}
