/** The team box-score table: one row per team per game, in table order. */
module Table {
  import opened Wrappers
  import opened Strings
  import opened Keys
  import opened Seqs

  /** A numeric cell; `None` is a pandas NaN. */
  type Cell = Option<real>

  /** One team's side of one game as the stage reads it. `stats` is the
      statistics vector of the table the stage reads, in column order; some
      of its columns (home flag, result, days since the last game) are
      derived by earlier stages rather than read from the box-score file. */
  datatype RawRow = RawRow(
    year: nat, month: nat, day: nat,
    team: string, opponent: string, location: string,
    win: int,
    stats: seq<Cell>)

  /** One team's side of one game once loaded: the raw fields plus the
      derived `date_str`, `game_key` and `team_game_key` columns. */
  datatype Row = Row(
    date: string, year: nat,
    team: string, opponent: string, location: string,
    win: int,
    stats: seq<Cell>,
    gameKey: seq<string>, teamGameKey: seq<string>)

  /** The key derivation of `load_raw_data` for one row. */
  function Load(raw: RawRow): (r: Row)
    ensures r.date == DateStr(raw.year, raw.month, raw.day)
    ensures r.gameKey == GameKey(r.date, raw.team, raw.opponent)
    ensures r.teamGameKey == [r.date, raw.team, raw.opponent]
    ensures (r.year, r.team, r.opponent, r.location, r.win, r.stats)
         == (raw.year, raw.team, raw.opponent, raw.location, raw.win, raw.stats)
  {
    var date := DateStr(raw.year, raw.month, raw.day);
    Row(date, raw.year, raw.team, raw.opponent, raw.location, raw.win, raw.stats,
        GameKey(date, raw.team, raw.opponent), TeamGameKey(date, raw.team, raw.opponent))
  }

  /** The two sides of one game, loaded, share their game key but not their
      team game key. */
  lemma LoadedKeys(a: RawRow, b: RawRow)
    requires (a.year, a.month, a.day) == (b.year, b.month, b.day)
    requires a.team == b.opponent && a.opponent == b.team && a.team != a.opponent
    ensures Load(a).gameKey == Load(b).gameKey
    ensures Load(a).teamGameKey != Load(b).teamGameKey
  {
    GameKeySymmetric(Load(a).date, a.team, a.opponent);
    TeamGameKeyDirectional(Load(a).date, a.team, a.opponent);
  }

  /** pandas `fillna(0)` on one cell. */
  function FillNa(c: Cell): real {
    match c
    case Some(x) => x
    case None => 0.0
  }

  /** `fillna(0)` on a row of cells. */
  function FillNaAll(cs: seq<Cell>): (r: seq<real>)
    ensures |r| == |cs|
    ensures forall i :: 0 <= i < |cs| ==> r[i] == FillNa(cs[i])
  {
    seq(|cs|, i requires 0 <= i < |cs| => FillNa(cs[i]))
  }

  /** Every row carries `k` statistics: the table has a fixed set of columns. */
  predicate Uniform(rows: seq<Row>, k: nat) {
    forall i :: 0 <= i < |rows| ==> |rows[i].stats| == k
  }

  /** The table is ordered by `date_str`, as `sort_values('date_str')` leaves it. */
  predicate DateSorted(rows: seq<Row>) {
    forall i, j :: 0 <= i < j < |rows| ==> StrLe(rows[i].date, rows[j].date)
  }

  /** Does row `r` belong to team `team`? */
  predicate OfTeam(r: Row, team: string) {
    r.team == team
  }

  /** The mask `df['team_tag'] == tag`. */
  function TeamMask(tag: string): Row -> bool {
    (r: Row) => OfTeam(r, tag)
  }

  /** The rows of team `tag`, in table order: `df[df['team_tag'] == tag]`. */
  function TeamRows(rows: seq<Row>, tag: string): (t: seq<Row>)
    ensures forall i :: 0 <= i < |t| ==> t[i].team == tag && t[i] in rows
  {
    Filter(rows, TeamMask(tag))
  }

  /** The selection keeps every row of the team. */
  lemma TeamRowsComplete(rows: seq<Row>, tag: string)
    ensures forall i :: 0 <= i < |rows| && rows[i].team == tag ==> rows[i] in TeamRows(rows, tag)
  {
    FilterKeepsAll(rows, TeamMask(tag));
  }

  /** The filter of `get_most_recent_team_record_before_date`. */
  predicate PlayedBefore(r: Row, tag: string, date: string) {
    r.team == tag && StrLt(r.date, date)
  }

  /** `get_most_recent_team_record_before_date`: the index of the last row
      (in table order) of team `tag` whose date string is strictly less
      than `date`, or `None` when there is no such row (the empty frame). */
  function MostRecentBefore(rows: seq<Row>, tag: string, date: string): (r: Option<nat>)
    ensures r.None? <==> forall i :: 0 <= i < |rows| ==> !PlayedBefore(rows[i], tag, date)
    ensures r.Some? ==> r.value < |rows| && rows[r.value].team == tag && StrLt(rows[r.value].date, date)
    ensures r.Some? ==> forall i :: r.value < i < |rows| ==> !PlayedBefore(rows[i], tag, date)
  {
    LastMatch(rows, (x: Row) => PlayedBefore(x, tag, date))
  }

  /** In a date-sorted table, a row dated strictly before row `k` sits
      before it, so the lookup for row `k` only ever returns an earlier row. */
  lemma MostRecentBeforeIsEarlier(rows: seq<Row>, k: nat, tag: string)
    requires DateSorted(rows) && k < |rows|
    ensures var r := MostRecentBefore(rows, tag, rows[k].date); r.Some? ==> r.value < k
  {
    var r := MostRecentBefore(rows, tag, rows[k].date);
    if r.Some? && r.value >= k {
      var j := r.value;
      if j == k {
        StrLtIrreflexive(rows[k].date);
      } else {
        StrLtAsymmetric(rows[j].date, rows[k].date);
      }
    }
  }
}
