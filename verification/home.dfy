/** `find_team_home_loc` and `assign_home_for_teams`: each team's home venue
    per year is the location it played at most often that year. */
module Home {
  import opened Seqs
  import opened Table

  /** Position of the first key with the largest count among `keys[..n]`:
      Python's `max` keeps its first candidate unless a later one is
      strictly larger, which is how `Counter.most_common(1)` breaks ties. */
  function BestIndex<T(==)>(keys: seq<T>, s: seq<T>, n: nat): (b: nat)
    requires 1 <= n <= |keys|
    ensures b < n
    ensures forall j :: 0 <= j < n ==> Count(s, keys[j]) <= Count(s, keys[b])
    ensures forall j :: 0 <= j < b ==> Count(s, keys[j]) < Count(s, keys[b])
    decreases n
  {
    if n == 1 then 0
    else
      var b := BestIndex(keys, s, n - 1);
      if Count(s, keys[n - 1]) > Count(s, keys[b]) then n - 1 else b
  }

  /** `Counter(s).most_common(1)[0][0]`: the element of `s` with the highest
      count, the first-seen one among equals. */
  function MostCommon<T(==,!new)>(s: seq<T>): (r: T)
    requires |s| > 0
    ensures r in s
    ensures forall i :: 0 <= i < |s| ==> Count(s, s[i]) <= Count(s, r)
    ensures forall i :: 0 <= i < |s| && Count(s, s[i]) == Count(s, r) ==> FirstIndex(s, r) <= FirstIndex(s, s[i])
  {
    var keys := Distinct(s);
    assert s[0] in keys;
    var b := BestIndex(keys, s, |keys|);
    CounterMaxIsPlurality(s, keys, b);
    keys[b]
  }

  /** The first key with the largest count, in first-seen key order, is a
      plurality element of `s` that is seen no later than any other. */
  lemma CounterMaxIsPlurality<T(!new)>(s: seq<T>, keys: seq<T>, b: nat)
    requires |s| > 0 && keys == Distinct(s) && 1 <= |keys| && b == BestIndex(keys, s, |keys|)
    ensures keys[b] in s
    ensures forall i :: 0 <= i < |s| ==> Count(s, s[i]) <= Count(s, keys[b])
    ensures forall i :: 0 <= i < |s| && Count(s, s[i]) == Count(s, keys[b]) ==> FirstIndex(s, keys[b]) <= FirstIndex(s, s[i])
  {
    DistinctFirstSeen(s);
    forall i | 0 <= i < |s|
      ensures Count(s, s[i]) <= Count(s, keys[b])
      ensures Count(s, s[i]) == Count(s, keys[b]) ==> FirstIndex(s, keys[b]) <= FirstIndex(s, s[i])
    {
      assert s[i] in keys;
      var j :| 0 <= j < |keys| && keys[j] == s[i];
      if Count(s, s[i]) == Count(s, keys[b]) && j != b {
        assert j > b;
      }
    }
  }

  /** Does row `r` belong to team `team` in year `year`? */
  predicate InTeamYear(r: Row, team: string, year: nat) {
    r.team == team && r.year == year
  }

  /** The locations of the team's rows in that year, in table order: what
      the Counter counts. */
  function Locations(rows: seq<Row>, team: string, year: nat): (locs: seq<string>)
    ensures |locs| == 0 <==> forall i :: 0 <= i < |rows| ==> !InTeamYear(rows[i], team, year)
    ensures forall x :: x in locs <==> exists i :: 0 <= i < |rows| && InTeamYear(rows[i], team, year) && rows[i].location == x
    decreases |rows|
  {
    if |rows| == 0 then []
    else
      var front := Locations(rows[..|rows| - 1], team, year);
      var last := rows[|rows| - 1];
      assert forall i :: 0 <= i < |rows| - 1 ==> rows[..|rows| - 1][i] == rows[i];
      if InTeamYear(last, team, year) then front + [last.location] else front
  }

  /** The team's rows in that year, in table order: the boolean-mask
      selection on `team_tag` and `year`. */
  function TeamYearRows(rows: seq<Row>, team: string, year: nat): (sel: seq<Row>)
    ensures forall i :: 0 <= i < |sel| ==> InTeamYear(sel[i], team, year) && sel[i] in rows
  {
    Filter(rows, (r: Row) => InTeamYear(r, team, year))
  }

  /** The locations are those of the selected rows, one per row and in
      the same order, so each location is counted once per game played
      there. */
  lemma {:induction false} LocationsOfSelection(rows: seq<Row>, team: string, year: nat)
    ensures |Locations(rows, team, year)| == |TeamYearRows(rows, team, year)|
    ensures forall i :: 0 <= i < |TeamYearRows(rows, team, year)| ==>
      Locations(rows, team, year)[i] == TeamYearRows(rows, team, year)[i].location
    decreases |rows|
  {
    if |rows| > 0 {
      var front := rows[..|rows| - 1];
      LocationsOfSelection(front, team, year);
      var last := rows[|rows| - 1];
      var locs := Locations(rows, team, year);
      var sel := TeamYearRows(rows, team, year);
      if InTeamYear(last, team, year) {
        assert locs == Locations(front, team, year) + [last.location];
        assert sel == TeamYearRows(front, team, year) + [last];
      } else {
        assert locs == Locations(front, team, year);
        assert sel == TeamYearRows(front, team, year);
      }
    }
  }

  /** The (team, year) pairs that have at least one row. */
  function TeamYears(rows: seq<Row>): set<(string, nat)> {
    set i | 0 <= i < |rows| :: (rows[i].team, rows[i].year)
  }

  /** `find_team_home_loc`: a key for every (team, year) with at least one
      row and for no other, mapped to that team's plurality location for the
      year, ties going to the location seen first. */
  function FindTeamHomeLoc(rows: seq<Row>): (home: map<(string, nat), string>)
    ensures forall t: string, y: nat :: (t, y) in home <==> exists i :: 0 <= i < |rows| && InTeamYear(rows[i], t, y)
    ensures forall k :: k in home ==> |Locations(rows, k.0, k.1)| > 0 && home[k] in Locations(rows, k.0, k.1)
    ensures forall k, i :: k in home && 0 <= i < |Locations(rows, k.0, k.1)| ==>
      var locs := Locations(rows, k.0, k.1);
      Count(locs, locs[i]) <= Count(locs, home[k])
    ensures forall k, i :: k in home && 0 <= i < |Locations(rows, k.0, k.1)| ==>
      var locs := Locations(rows, k.0, k.1);
      Count(locs, locs[i]) == Count(locs, home[k]) ==> FirstIndex(locs, home[k]) <= FirstIndex(locs, locs[i])
  {
    map k | k in TeamYears(rows) :: MostCommon(Locations(rows, k.0, k.1))
  }

  /** The `apply` of `assign_home_for_teams` given the home dictionary. */
  function HomeFlags(rows: seq<Row>, home: map<(string, nat), string>): (f: seq<int>)
    requires forall i :: 0 <= i < |rows| ==> (rows[i].team, rows[i].year) in home
    ensures |f| == |rows|
    ensures forall i :: 0 <= i < |rows| ==> f[i] == 0 || f[i] == 1
    ensures forall i :: 0 <= i < |rows| ==> (f[i] == 1 <==> rows[i].location == home[(rows[i].team, rows[i].year)])
  {
    seq(|rows|, i requires 0 <= i < |rows| => if home[(rows[i].team, rows[i].year)] == rows[i].location then 1 else 0)
  }

  /** `assign_home_for_teams`: `feature_home` is 1 exactly when the row was
      played at its team's home venue for that year; the lookup never fails
      because the row itself gives its (team, year) a key. */
  function FeatureHome(rows: seq<Row>): (f: seq<int>)
    ensures |f| == |rows|
    ensures forall i :: 0 <= i < |rows| ==> (rows[i].team, rows[i].year) in FindTeamHomeLoc(rows)
    ensures forall i :: 0 <= i < |rows| ==> f[i] == 0 || f[i] == 1
    ensures forall i :: 0 <= i < |rows| ==>
      (f[i] == 1 <==> rows[i].location == FindTeamHomeLoc(rows)[(rows[i].team, rows[i].year)])
  {
    EveryRowHasHome(rows);
    HomeFlags(rows, FindTeamHomeLoc(rows))
  }

  /** Every row's own (team, year) has a home venue. */
  lemma EveryRowHasHome(rows: seq<Row>)
    ensures forall i :: 0 <= i < |rows| ==> (rows[i].team, rows[i].year) in FindTeamHomeLoc(rows)
  {
    forall i | 0 <= i < |rows| ensures (rows[i].team, rows[i].year) in FindTeamHomeLoc(rows) {
      assert (rows[i].team, rows[i].year) in TeamYears(rows);
    }
  }
}
