/** The moving averages of `build_moving_average_features`: per team and
    statistic, `shift(periods=1).rolling(window=n).mean()`. */
module Rolling {
  import opened Wrappers
  import opened Seqs
  import opened Table

  /** `Series.shift(periods=1)`: every value moves one row down, NaN on top. */
  function Shift(vals: seq<Cell>): (s: seq<Cell>)
    ensures |s| == |vals|
    ensures |s| > 0 ==> s[0].None?
    ensures forall p :: 1 <= p < |vals| ==> s[p] == vals[p - 1]
  {
    if |vals| == 0 then [] else [None] + vals[..|vals| - 1]
  }

  /** No NaN in the window. */
  predicate Present(w: seq<Cell>) {
    forall q :: 0 <= q < |w| ==> w[q].Some?
  }

  /** The sum of a window without NaN. */
  function Sum(w: seq<Cell>): real
    requires Present(w)
  {
    if |w| == 0 then 0.0 else Sum(w[..|w| - 1]) + w[|w| - 1].value
  }

  /** The mean of a non-empty window without NaN. */
  function Mean(w: seq<Cell>): real
    requires Present(w) && |w| > 0
  {
    Sum(w) / |w| as real
  }

  /** `Series.rolling(window=n).mean()`: at row `p`, the mean of rows
      `p - n + 1 .. p` when all `n` exist and none is NaN (the default
      `min_periods` is the window length), NaN otherwise. */
  function RollingMean(vals: seq<Cell>, n: nat): (r: seq<Cell>)
    requires n >= 1
    ensures |r| == |vals|
  {
    seq(|vals|, p requires 0 <= p < |vals| =>
      if n <= p + 1 && Present(vals[p + 1 - n..p + 1]) then Some(Mean(vals[p + 1 - n..p + 1])) else None)
  }

  /** After the shift, row `g`'s moving average is the mean of the `n`
      values strictly before it: defined exactly when there are `n` of them
      and none is NaN. */
  lemma ShiftedMeanIsPrior(vals: seq<Cell>, n: nat, g: nat)
    requires n >= 1 && g < |vals|
    ensures var r := RollingMean(Shift(vals), n);
      r[g].Some? <==> n <= g && Present(vals[g - n..g])
    ensures var r := RollingMean(Shift(vals), n);
      r[g].Some? ==> r[g].value == Mean(vals[g - n..g])
  {
    var s := Shift(vals);
    if n <= g + 1 {
      var w := s[g + 1 - n..g + 1];
      if n <= g {
        assert w == vals[g - n..g];
      } else {
        assert w[0] == s[0];
      }
    }
  }

  /** Statistic `c` of the rows, in order. */
  function Column(rows: seq<Row>, c: nat): (col: seq<Cell>)
    requires forall i :: 0 <= i < |rows| ==> c < |rows[i].stats|
    ensures |col| == |rows|
    ensures forall i :: 0 <= i < |rows| ==> col[i] == rows[i].stats[c]
  {
    seq(|rows|, i requires 0 <= i < |rows| => rows[i].stats[c])
  }

  /** Column `<feature>_team_rl_avg_<c>_<n>` for every row of the table: the
      moving average of its team's own rows, written back to the row. */
  function MovingAverage(rows: seq<Row>, k: nat, c: nat, n: nat): (avg: seq<Cell>)
    requires Uniform(rows, k) && c < k && n >= 1
    ensures |avg| == |rows|
  {
    seq(|rows|, i requires 0 <= i < |rows| => TeamAverageAt(rows, k, c, n, i))
  }

  /** The moving average of row `i` within its team's rows. */
  function TeamAverageAt(rows: seq<Row>, k: nat, c: nat, n: nat, i: nat): Cell
    requires Uniform(rows, k) && c < k && n >= 1 && i < |rows|
  {
    var p := TeamMask(rows[i].team);
    FilterAtRank(rows, p, i);
    var team := TeamRows(rows, rows[i].team);
    RollingMean(Shift(Column(team, c)), n)[Rank(rows, p, i)]
  }

  /** Row `i`'s moving average is the mean of statistic `c` over the last
      `n` games its team played before it in table order: defined exactly
      when the team has `n` earlier games and none of them has NaN there.
      Neither row `i` nor any later row is used. */
  lemma MovingAverageUsesEarlierGames(rows: seq<Row>, k: nat, c: nat, n: nat, i: nat)
    requires Uniform(rows, k) && c < k && n >= 1 && i < |rows|
    ensures var prior := Column(TeamRows(rows[..i], rows[i].team), c);
      var a := MovingAverage(rows, k, c, n)[i];
      && (a.Some? <==> n <= |prior| && Present(prior[|prior| - n..]))
      && (a.Some? ==> a.value == Mean(prior[|prior| - n..]))
  {
    var p := TeamMask(rows[i].team);
    FilterAtRank(rows, p, i);
    var g := Rank(rows, p, i);
    var team := TeamRows(rows, rows[i].team);
    var col := Column(team, c);
    ShiftedMeanIsPrior(col, n, g);
    var earlier := TeamRows(rows[..i], rows[i].team);
    var prior := Column(earlier, c);
    assert team[..g] == earlier;
    assert |prior| == g;
    assert MovingAverage(rows, k, c, n)[i] == TeamAverageAt(rows, k, c, n, i) == RollingMean(Shift(col), n)[g];
    if n <= g {
      forall q | g - n <= q < g ensures col[q] == prior[q] {
        assert team[q] == earlier[q];
      }
      assert col[g - n..g] == prior[g - n..];
    }
  }
}
