/** `encode_dates` and `assign_date_since_last_game`. Turning `date_str`
    into a calendar date (and a day of week) is pandas' calendar logic,
    so the parsed fields and the day count come in as parameters. */
module DateFeatures {
  import opened Wrappers
  import opened Strings
  import opened Seqs
  import opened Table

  /** The one-hot columns of one date field: for every observed value `v`
      a column `<field>_<v>` that is 1 on exactly the rows whose field is `v`. */
  function OneHot(values: seq<int>): (cols: map<int, seq<int>>)
    ensures forall v :: v in cols <==> v in values
    ensures forall v :: v in cols ==> |cols[v]| == |values|
    ensures forall v, k :: v in cols && 0 <= k < |values| ==> (cols[v][k] == 0 || cols[v][k] == 1)
    ensures forall v, k :: v in cols && 0 <= k < |values| ==> (cols[v][k] == 1 <==> values[k] == v)
  {
    map v | v in values :: seq(|values|, k requires 0 <= k < |values| => if values[k] == v then 1 else 0)
  }

  /** Each row has exactly one hot column among a field's columns, and it
      names the row's value: the encoding can be read back. */
  lemma OneHotDecodes(values: seq<int>, k: nat)
    requires k < |values|
    ensures values[k] in OneHot(values) && OneHot(values)[values[k]][k] == 1
    ensures forall v :: v in OneHot(values) && v != values[k] ==> OneHot(values)[v][k] == 0
  {
  }

  /** The previous row of the same team as row `i`, in table order. */
  function PreviousGame(rows: seq<Row>, i: nat): (p: Option<nat>)
    requires i < |rows|
    ensures p.None? <==> forall j :: 0 <= j < i ==> !OfTeam(rows[j], rows[i].team)
    ensures p.Some? ==> p.value < i && OfTeam(rows[p.value], rows[i].team)
    ensures p.Some? ==> forall k :: p.value < k < i ==> !OfTeam(rows[k], rows[i].team)
  {
    var m := LastMatch(rows[..i], (r: Row) => OfTeam(r, rows[i].team));
    assert forall j :: 0 <= j < i ==> rows[..i][j] == rows[j];
    m
  }

  /** `days_since_last_fight`: for each row, the days between it and the
      previous row of the same team in table order (`groupby('team_tag').diff()`),
      NaN for a team's first row. `dayNumber` turns a date string into a day count. */
  function DaysSinceLastGame(rows: seq<Row>, dayNumber: string -> int): (d: seq<Option<int>>)
    ensures |d| == |rows|
    ensures forall i :: 0 <= i < |rows| ==> (d[i].None? <==> forall j :: 0 <= j < i ==> !OfTeam(rows[j], rows[i].team))
    ensures forall i :: 0 <= i < |rows| && d[i].Some? ==>
      d[i].value == dayNumber(rows[i].date) - dayNumber(rows[PreviousGame(rows, i).value].date)
  {
    seq(|rows|, i requires 0 <= i < |rows| => Gap(rows, dayNumber, i))
  }

  /** The entry of `days_since_last_fight` for row `i`. */
  function Gap(rows: seq<Row>, dayNumber: string -> int, i: nat): (d: Option<int>)
    requires i < |rows|
    ensures d.None? <==> PreviousGame(rows, i).None?
  {
    match PreviousGame(rows, i)
    case None => None
    case Some(j) => Some(dayNumber(rows[i].date) - dayNumber(rows[j].date))
  }

  /** The gap is measured from the one same-team row with no same-team row
      between it and row `i`. */
  lemma DaysSinceLastGameIsGap(rows: seq<Row>, dayNumber: string -> int, i: nat, j: nat)
    requires j < i < |rows| && OfTeam(rows[j], rows[i].team)
    requires forall k :: j < k < i ==> !OfTeam(rows[k], rows[i].team)
    ensures DaysSinceLastGame(rows, dayNumber)[i] == Some(dayNumber(rows[i].date) - dayNumber(rows[j].date))
  {
    var p := PreviousGame(rows, i);
    assert p.Some?;
    assert p.value == j;
    assert Gap(rows, dayNumber, i) == Some(dayNumber(rows[i].date) - dayNumber(rows[j].date));
  }

  /** In a date-sorted table, with a day count that never decreases along
      the date order, no gap is negative. */
  lemma DaysSinceLastGameNonNegative(rows: seq<Row>, dayNumber: string -> int, i: nat)
    requires DateSorted(rows) && i < |rows|
    requires forall a, b :: StrLe(a, b) ==> dayNumber(a) <= dayNumber(b)
    ensures var d := DaysSinceLastGame(rows, dayNumber)[i]; d.Some? ==> d.value >= 0
  {
    var m := PreviousGame(rows, i);
    if m.Some? {
      assert StrLe(rows[m.value].date, rows[i].date);
    }
  }
}
