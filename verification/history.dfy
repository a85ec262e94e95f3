/** `build_timeseries`: for every team and game, a matrix of the team's
    statistics (and its opponents') over the games before it. */
module History {
  import opened Wrappers
  import opened Seqs
  import opened Keys
  import opened Table
  import opened Arrays

  /** A team row after the self-merge: the row plus the statistics its
      opponent recorded in the same game (the `<column>_opponent` columns). */
  datatype JoinedRow = JoinedRow(row: Row, opponentStats: seq<Cell>)

  /** The row `o`, with its team and opponent tags swapped and its game key
      recomputed, agrees with `l` on `team_tag`, `opponent_tag` and `game_key`:
      the join condition of the merge. */
  predicate MirrorOf(o: Row, l: Row) {
    o.opponent == l.team && o.team == l.opponent && GameKey(o.date, o.opponent, o.team) == l.gameKey
  }

  /** The rows whose swapped copy joins row `l`, in table order. */
  function Mirrors(rows: seq<Row>, l: Row): (ms: seq<Row>)
    ensures forall i :: 0 <= i < |ms| ==> MirrorOf(ms[i], l) && ms[i] in rows
  {
    Filter(rows, (o: Row) => MirrorOf(o, l))
  }

  /** The joined rows of one left row, one per matching mirror. */
  function JoinOne(l: Row, ms: seq<Row>): (js: seq<JoinedRow>)
    ensures |js| == |ms|
    ensures forall i :: 0 <= i < |ms| ==> js[i] == JoinedRow(l, ms[i].stats)
  {
    seq(|ms|, i requires 0 <= i < |ms| => JoinedRow(l, ms[i].stats))
  }

  /** The inner merge of the table with its swapped copy, left rows in
      table order and, for each, its mirrors in table order. A row without
      a mirror produces nothing. */
  function MergeOpponent(rows: seq<Row>, left: seq<Row>): (js: seq<JoinedRow>)
    ensures forall i :: 0 <= i < |js| ==> js[i].row in left
    ensures forall i :: 0 <= i < |js| ==> exists o :: o in rows && MirrorOf(o, js[i].row) && js[i].opponentStats == o.stats
    decreases |left|
  {
    if |left| == 0 then []
    else
      var l := left[|left| - 1];
      var ms := Mirrors(rows, l);
      var front := MergeOpponent(rows, left[..|left| - 1]);
      var js := front + JoinOne(l, ms);
      assert forall i :: 0 <= i < |front| ==> js[i] == front[i];
      assert forall i :: |front| <= i < |js| ==>
        js[i] == JoinedRow(l, ms[i - |front|].stats) && MirrorOf(ms[i - |front|], l) && ms[i - |front|] in rows;
      js
  }

  /** A loaded row carries the game key of its own date and tags. */
  predicate WellKeyed(r: Row) {
    r.gameKey == GameKey(r.date, r.team, r.opponent)
  }

  /** For loaded rows the recomputed key of the swapped copy is the row's
      own game key, so a mirror is the other side of the same game. */
  lemma MirrorIsOtherSide(o: Row, l: Row)
    requires WellKeyed(o)
    ensures MirrorOf(o, l) <==> o.opponent == l.team && o.team == l.opponent && o.gameKey == l.gameKey
  {
    GameKeySymmetric(o.date, o.team, o.opponent);
  }

  /** When every left row has exactly one mirror, the merge keeps the rows
      one for one and in order, each with its mirror's statistics. */
  lemma {:induction false} MergeOneToOne(rows: seq<Row>, left: seq<Row>)
    requires forall i :: 0 <= i < |left| ==> |Mirrors(rows, left[i])| == 1
    ensures |MergeOpponent(rows, left)| == |left|
    ensures forall i :: 0 <= i < |left| ==>
      MergeOpponent(rows, left)[i] == JoinedRow(left[i], Mirrors(rows, left[i])[0].stats)
    decreases |left|
  {
    if |left| > 0 {
      var n := |left|;
      var front := left[..n - 1];
      assert forall i :: 0 <= i < n - 1 ==> front[i] == left[i];
      MergeOneToOne(rows, front);
      var l := left[n - 1];
      var a, b := MergeOpponent(rows, front), JoinOne(l, Mirrors(rows, l));
      assert MergeOpponent(rows, left) == a + b;
      forall i | 0 <= i < n
        ensures (a + b)[i] == JoinedRow(left[i], Mirrors(rows, left[i])[0].stats)
      {
        if i < n - 1 {
          assert (a + b)[i] == a[i];
        } else {
          assert (a + b)[i] == b[0];
        }
      }
    }
  }

  /** A left row without a mirror is dropped by the merge rather than reported. */
  lemma {:induction false} MergeDropsUnmatched(rows: seq<Row>, left: seq<Row>, l: Row)
    requires |Mirrors(rows, l)| == 0
    ensures forall i :: 0 <= i < |MergeOpponent(rows, left)| ==> MergeOpponent(rows, left)[i].row != l
    decreases |left|
  {
    if |left| > 0 {
      MergeDropsUnmatched(rows, left[..|left| - 1], l);
    }
  }

  /** One history row: the row's own statistics followed by its opponent's,
      NaN read as 0 (`combined_columns` after `fillna(0)`). */
  function HistoryRow(j: JoinedRow): (v: seq<real>)
    ensures |v| == |j.row.stats| + |j.opponentStats|
  {
    FillNaAll(j.row.stats) + FillNaAll(j.opponentStats)
  }

  /** Column `c` of a history row is the row's own statistic `c`, and
      column `k + c` its opponent's, NaN read as 0. */
  lemma HistoryRowCells(j: JoinedRow, c: nat)
    requires c < |j.row.stats| && c < |j.opponentStats|
    ensures HistoryRow(j)[c] == FillNa(j.row.stats[c])
    ensures HistoryRow(j)[|j.row.stats| + c] == FillNa(j.opponentStats[c])
  {
  }

  /** Every joined row carries `k` own and `k` opponent statistics. */
  predicate JoinedUniform(js: seq<JoinedRow>, k: nat) {
    forall i :: 0 <= i < |js| ==> |js[i].row.stats| == k && |js[i].opponentStats| == k
  }

  function Min(a: int, b: int): int { if a <= b then a else b }

  /** Row `p` of `frame.shift(h)` after `fillna(0)`: original row `p - h`,
      or zeros when `p < h`. */
  function ShiftedRow(js: seq<JoinedRow>, p: nat, h: nat, k: nat): (v: seq<real>)
    requires p < |js| && JoinedUniform(js, k)
    ensures |v| == 2 * k
  {
    if p < h then ZeroRow(2 * k) else HistoryRow(js[p - h])
  }

  /** `frame.shift(h).iloc[g:g + h][combined_columns].fillna(0)`: the rows
      `g .. min(g + h, n) - 1` of the shifted frame. */
  function ShiftedSlice(js: seq<JoinedRow>, g: nat, h: nat, k: nat): (s: seq<seq<real>>)
    requires g < |js| && JoinedUniform(js, k)
    ensures |s| == Min(h, |js| - g)
    ensures forall i :: 0 <= i < |s| ==> s[i] == ShiftedRow(js, g + i, h, k)
  {
    seq(Min(g + h, |js|) - g, i requires 0 <= i < Min(g + h, |js|) - g => ShiftedRow(js, g + i, h, k))
  }

  /** Stack zero rows of width `width` on top until there are `h` rows. */
  function PadFront(rows: seq<seq<real>>, h: nat, width: nat): (p: seq<seq<real>>)
    requires |rows| <= h
    ensures |p| == h
    ensures forall i :: 0 <= i < h - |rows| ==> p[i] == ZeroRow(width)
    ensures forall i :: 0 <= i < |rows| ==> p[h - |rows| + i] == rows[i]
  {
    seq(h - |rows|, _ => ZeroRow(width)) + rows
  }

  /** Does every row of `rows` have `width` entries? */
  predicate RowsOfWidth(rows: seq<seq<real>>, width: nat) {
    forall i :: 0 <= i < |rows| ==> |rows[i]| == width
  }

  /** `np.hstack([window, diff])`: each row followed by its own columns
      minus its opponent columns. */
  function AppendDiff(rows: seq<seq<real>>, k: nat): (m: Matrix)
    requires RowsOfWidth(rows, 2 * k)
    ensures Valid(m) && m.height == |rows| && m.width == 3 * k
    ensures forall i, j :: 0 <= i < |rows| && 0 <= j < 2 * k ==> m.cells[i][j] == rows[i][j]
    ensures forall i, c :: 0 <= i < |rows| && 0 <= c < k ==> m.cells[i][2 * k + c] == rows[i][c] - rows[i][k + c]
  {
    Matrix(|rows|, 3 * k, seq(|rows|, i requires 0 <= i < |rows| =>
      rows[i] + seq(k, c requires 0 <= c < k => rows[i][c] - rows[i][k + c])))
  }

  /** The last three steps of `build_timeseries` for one game: pad to `h`
      rows, append the diff block (own columns minus opponent columns), and
      transpose on request. */
  function Finish(window: seq<seq<real>>, h: nat, k: nat, transpose: bool): (m: Matrix)
    requires |window| <= h && RowsOfWidth(window, 2 * k)
    ensures Valid(m)
    ensures !transpose ==> m.height == h && m.width == 3 * k
    ensures transpose ==> m.height == 3 * k && m.width == h
    ensures forall t, j :: 0 <= t < h && 0 <= j < 2 * k ==>
      At(m, transpose, t, j) == PadFront(window, h, 2 * k)[t][j]
    ensures forall t, c :: 0 <= t < h && 0 <= c < k ==>
      At(m, transpose, t, 2 * k + c) == PadFront(window, h, 2 * k)[t][c] - PadFront(window, h, 2 * k)[t][k + c]
  {
    Layout(AppendDiff(PadFront(window, h, 2 * k), k), transpose)
  }

  /** The matrix `build_timeseries` stores for the game at position `g` of
      the team's date-ordered rows, as the code computes it. */
  function PregameMatrixAsWritten(js: seq<JoinedRow>, g: nat, h: nat, k: nat, transpose: bool): (m: Matrix)
    requires g < |js| && JoinedUniform(js, k)
    ensures Valid(m)
    ensures !transpose ==> m.height == h && m.width == 3 * k
    ensures transpose ==> m.height == 3 * k && m.width == h
    ensures forall t, j :: 0 <= t < h && 0 <= j < 2 * k ==>
      At(m, transpose, t, j) == PadFront(ShiftedSlice(js, g, h, k), h, 2 * k)[t][j]
    ensures forall t, c :: 0 <= t < h && 0 <= c < k ==>
      At(m, transpose, t, 2 * k + c)
        == PadFront(ShiftedSlice(js, g, h, k), h, 2 * k)[t][c] - PadFront(ShiftedSlice(js, g, h, k), h, 2 * k)[t][k + c]
  {
    Finish(ShiftedSlice(js, g, h, k), h, k, transpose)
  }

  /** The history row of position `p`, zeros for a position before the first game. */
  function RowOrZero(js: seq<JoinedRow>, p: int, k: nat): (v: seq<real>)
    requires p < |js| && JoinedUniform(js, k)
    ensures |v| == 2 * k
  {
    if p < 0 then ZeroRow(2 * k) else HistoryRow(js[p])
  }

  /** What the code's window holds for the game at position `g` of `n`:
      with `m = min(h, n - g)`, `h - m` zero rows followed by the rows at
      positions `g - h .. g - h + m - 1` (zeros for negative positions). So
      it never holds game `g` or a later one, and when `g + h > n` it leaves
      out the `g + h - n` games just before `g`. */
  lemma AsWrittenWindow(js: seq<JoinedRow>, g: nat, h: nat, k: nat)
    requires g < |js| && JoinedUniform(js, k)
    ensures var m := Min(h, |js| - g);
      PadFront(ShiftedSlice(js, g, h, k), h, 2 * k)
        == seq(h - m, _ => ZeroRow(2 * k)) + seq(m, t requires 0 <= t < m => RowOrZero(js, g - h + t, k))
  {
    var m := Min(h, |js| - g);
    var s := ShiftedSlice(js, g, h, k);
    var r := seq(m, t requires 0 <= t < m => RowOrZero(js, g - h + t, k));
    forall t | 0 <= t < m ensures s[t] == r[t] {
      assert s[t] == ShiftedRow(js, g + t, h, k);
      assert r[t] == RowOrZero(js, g - h + t, k);
      if g + t < h {
        assert s[t] == ZeroRow(2 * k);
      } else {
        assert s[t] == HistoryRow(js[g + t - h]);
      }
    }
    assert s == r;
  }

  /** The history rows of a run of joined rows. */
  function HistoryRows(js: seq<JoinedRow>, k: nat): (rs: seq<seq<real>>)
    requires JoinedUniform(js, k)
    ensures |rs| == |js| && RowsOfWidth(rs, 2 * k)
    ensures forall i :: 0 <= i < |js| ==> rs[i] == HistoryRow(js[i])
  {
    seq(|js|, i requires 0 <= i < |js| => HistoryRow(js[i]))
  }

  /** The window the pipeline means to store for a game after the games
      `prior`: position `t` holds game `|prior| - h + t`, or zeros before
      the first game. */
  function PriorWindow(prior: seq<JoinedRow>, h: nat, k: nat): (w: seq<seq<real>>)
    requires JoinedUniform(prior, k)
    ensures |w| == h && RowsOfWidth(w, 2 * k)
    ensures forall t :: 0 <= t < h ==> w[t] == RowOrZero(prior, |prior| - h + t, k)
  {
    var w := seq(h, t requires 0 <= t < h => RowOrZero(prior, |prior| - h + t, k));
    forall t | 0 <= t < h ensures |w[t]| == 2 * k {
      assert w[t] == RowOrZero(prior, |prior| - h + t, k);
    }
    w
  }

  /** The intended window is the last `min(h, n)` of the `n` games already
      played, oldest first, under zero rows. */
  lemma PriorWindowIsPaddedTail(prior: seq<JoinedRow>, h: nat, k: nat)
    requires JoinedUniform(prior, k)
    ensures var c := Min(h, |prior|);
      PriorWindow(prior, h, k) == PadFront(HistoryRows(prior[|prior| - c..], k), h, 2 * k)
  {
    var c := Min(h, |prior|);
    var tail := prior[|prior| - c..];
    var w := PriorWindow(prior, h, k);
    var rs := HistoryRows(tail, k);
    assert |rs| == c;
    var p := PadFront(rs, h, 2 * k);
    forall t | 0 <= t < h ensures w[t] == p[t] {
      if t < h - c {
        assert p[t] == ZeroRow(2 * k);
      } else {
        TailAt(prior, c, t - (h - c));
        assert p[h - c + (t - (h - c))] == rs[t - (h - c)];
      }
    }
    assert |w| == |p|;
  }

  /** Position `i` of the last `c` rows is position `n - c + i` of all `n`. */
  lemma TailAt(prior: seq<JoinedRow>, c: nat, i: nat)
    requires c <= |prior| && i < c
    ensures prior[|prior| - c..][i] == prior[|prior| - c + i]
  {
  }

  /** The stored matrix for the game at position `g` of the team's
      date-ordered joined rows, built from the games before it only. */
  function PregameMatrix(js: seq<JoinedRow>, g: nat, h: nat, k: nat, transpose: bool): (m: Matrix)
    requires g < |js| && JoinedUniform(js, k)
    ensures Valid(m)
    ensures !transpose ==> m.height == h && m.width == 3 * k
    ensures transpose ==> m.height == 3 * k && m.width == h
    ensures forall t, j :: 0 <= t < h && 0 <= j < 2 * k ==>
      At(m, transpose, t, j) == PriorWindow(js[..g], h, k)[t][j]
    ensures forall t, c :: 0 <= t < h && 0 <= c < k ==>
      At(m, transpose, t, 2 * k + c) == PriorWindow(js[..g], h, k)[t][c] - PriorWindow(js[..g], h, k)[t][k + c]
  {
    var w := PriorWindow(js[..g], h, k);
    assert PadFront(w, h, 2 * k) == w;
    Finish(w, h, k, transpose)
  }

  /** When at least `h` games follow position `g`, the code's window is
      the intended one: the `h` games before `g`, zeros before the first. */
  lemma AsWrittenWindowAgrees(js: seq<JoinedRow>, g: nat, h: nat, k: nat)
    requires g < |js| && JoinedUniform(js, k) && g + h <= |js|
    ensures PadFront(ShiftedSlice(js, g, h, k), h, 2 * k) == PriorWindow(js[..g], h, k)
  {
    AsWrittenWindow(js, g, h, k);
    var a := PadFront(ShiftedSlice(js, g, h, k), h, 2 * k);
    var w := PriorWindow(js[..g], h, k);
    forall t | 0 <= t < h ensures a[t] == w[t] {
      assert a[t] == RowOrZero(js, g - h + t, k);
      assert w[t] == RowOrZero(js[..g], g - h + t, k);
      RowOrZeroPrefix(js, g, g - h + t, k);
    }
    assert |a| == |w|;
  }

  /** Positions before `g` read the same in the first `g` rows as in all of them. */
  lemma RowOrZeroPrefix(js: seq<JoinedRow>, g: nat, p: int, k: nat)
    requires p < g <= |js| && JoinedUniform(js, k)
    ensures JoinedUniform(js[..g], k)
    ensures RowOrZero(js[..g], p, k) == RowOrZero(js, p, k)
  {
    if p >= 0 {
      assert js[..g][p] == js[p];
    }
  }

  /** The code's slice is the first `min(h, n - g)` rows of the intended
      window: it keeps the oldest of the `h` games before `g` and cuts off
      the most recent ones. */
  lemma AsWrittenIsCutWindow(js: seq<JoinedRow>, g: nat, h: nat, k: nat)
    requires g < |js| && JoinedUniform(js, k)
    ensures JoinedUniform(js[..g], k)
    ensures ShiftedSlice(js, g, h, k) == PriorWindow(js[..g], h, k)[..Min(h, |js| - g)]
  {
    var s := ShiftedSlice(js, g, h, k);
    var w := PriorWindow(js[..g], h, k)[..Min(h, |js| - g)];
    forall t | 0 <= t < |s| ensures s[t] == w[t] {
      RowOrZeroPrefix(js, g, g - h + t, k);
    }
    assert |s| == |w|;
  }

  /** ... and so is the stored matrix. */
  lemma AsWrittenAgrees(js: seq<JoinedRow>, g: nat, h: nat, k: nat, transpose: bool)
    requires g < |js| && JoinedUniform(js, k) && g + h <= |js|
    ensures PregameMatrixAsWritten(js, g, h, k, transpose) == PregameMatrix(js, g, h, k, transpose)
  {
    AsWrittenWindowAgrees(js, g, h, k);
    var w := PriorWindow(js[..g], h, k);
    assert PadFront(w, h, 2 * k) == w;
  }

  /** Three games of one team, each with one statistic. */
  function ThreeGames(): seq<JoinedRow> {
    [JoinedRow(Row("2020-01-01", 2020, "A", "B", "X", 1, [Some(1.0)], [], []), [Some(5.0)]),
     JoinedRow(Row("2020-01-02", 2020, "A", "C", "X", 0, [Some(2.0)], [], []), [Some(6.0)]),
     JoinedRow(Row("2020-01-03", 2020, "A", "D", "X", 1, [Some(3.0)], [], []), [Some(7.0)])]
  }

  /** History length 2: for the last of three games the code stores zeros
      and game 0, where games 0 and 1 were meant. */
  lemma AsWrittenDropsRecentGames()
    ensures JoinedUniform(ThreeGames(), 1)
    ensures PadFront(ShiftedSlice(ThreeGames(), 2, 2, 1), 2, 2) == [[0.0, 0.0], [1.0, 5.0]]
    ensures PriorWindow(ThreeGames()[..2], 2, 1) == [[1.0, 5.0], [2.0, 6.0]]
  {
    var js := ThreeGames();
    var s := ShiftedSlice(js, 2, 2, 1);
    assert |s| == 1 && s[0] == HistoryRow(js[0]);
    assert HistoryRow(js[0]) == [1.0, 5.0];
    assert ZeroRow(2) == [0.0, 0.0];
    var a := PadFront(s, 2, 2);
    assert a[0] == ZeroRow(2) && a[1] == s[0];
    var prior := js[..2];
    var w := PriorWindow(prior, 2, 1);
    assert prior[0] == js[0] && prior[1] == js[1];
    assert w[0] == RowOrZero(prior, 0, 1) && w[1] == RowOrZero(prior, 1, 1);
    assert HistoryRow(js[1]) == [2.0, 6.0];
  }

  /** The joined rows of a table whose rows all carry `k` statistics carry
      `k` own and `k` opponent statistics. */
  lemma MergedUniform(rows: seq<Row>, k: nat)
    requires Uniform(rows, k)
    ensures JoinedUniform(MergeOpponent(rows, rows), k)
  {
  }

  /** The joined rows of team `t`, in table (date) order: `temp_team_df_dict[t]`. */
  function TeamHistory(js: seq<JoinedRow>, t: string): (th: seq<JoinedRow>)
    ensures forall i :: 0 <= i < |th| ==> th[i].row.team == t && th[i] in js
  {
    Filter(js, (j: JoinedRow) => j.row.team == t)
  }

  /** The dictionary key of a joined row: its team, then its game key. */
  function TeamGame(j: JoinedRow): (string, seq<string>) {
    (j.row.team, j.row.gameKey)
  }

  /** The matrix `build_timeseries` stores for joined row `i`, as the code
      computes it: its team's history, at the position the row takes there. */
  function GameMatrix(js: seq<JoinedRow>, i: nat, h: nat, k: nat, transpose: bool): (m: Matrix)
    requires i < |js| && JoinedUniform(js, k)
    ensures Valid(m)
    ensures !transpose ==> m.height == h && m.width == 3 * k
    ensures transpose ==> m.height == 3 * k && m.width == h
  {
    var p := (j: JoinedRow) => j.row.team == js[i].row.team;
    FilterAtRank(js, p, i);
    var th := TeamHistory(js, js[i].row.team);
    PregameMatrixAsWritten(th, Rank(js, p, i), h, k, transpose)
  }

  /** The number of games of joined row `i`'s team from row `i` on. */
  function GamesFrom(js: seq<JoinedRow>, i: nat): (n: nat)
    requires i < |js|
    ensures n >= 1
  {
    var p := (j: JoinedRow) => j.row.team == js[i].row.team;
    FilterAtRank(js, p, i);
    FilterPrefix(js, p, i);
    |TeamHistory(js, js[i].row.team)| - |TeamHistory(js[..i], js[i].row.team)|
  }

  /** The code's matrix of joined row `i` is built from its team's games
      strictly before it in table order and nothing else: the first
      `min(h, n)` rows of the intended window, for the `n` games of the
      team from row `i` on, under zero rows. */
  lemma GameMatrixUsesEarlierGames(js: seq<JoinedRow>, i: nat, h: nat, k: nat, transpose: bool)
    requires i < |js| && JoinedUniform(js, k)
    ensures var w := PriorWindow(TeamHistory(js[..i], js[i].row.team), h, k);
      GameMatrix(js, i, h, k, transpose) == Finish(w[..Min(h, GamesFrom(js, i))], h, k, transpose)
  {
    var th := TeamHistory(js, js[i].row.team);
    var g := TeamPosition(js, i, h, k, transpose);
    AsWrittenIsCutWindow(th, g, h, k);
    var w := PriorWindow(TeamHistory(js[..i], js[i].row.team), h, k);
    assert ShiftedSlice(th, g, h, k) == w[..Min(h, GamesFrom(js, i))];
    assert PregameMatrixAsWritten(th, g, h, k, transpose) == Finish(ShiftedSlice(th, g, h, k), h, k, transpose);
  }

  /** Joined row `i` sits at position `g` of its team's history, after
      the team's earlier rows, and its matrix is the one stored there. */
  lemma TeamPosition(js: seq<JoinedRow>, i: nat, h: nat, k: nat, transpose: bool) returns (g: nat)
    requires i < |js| && JoinedUniform(js, k)
    ensures g < |TeamHistory(js, js[i].row.team)|
    ensures TeamHistory(js, js[i].row.team)[g] == js[i]
    ensures TeamHistory(js, js[i].row.team)[..g] == TeamHistory(js[..i], js[i].row.team)
    ensures GamesFrom(js, i) == |TeamHistory(js, js[i].row.team)| - g
    ensures GameMatrix(js, i, h, k, transpose) == PregameMatrixAsWritten(TeamHistory(js, js[i].row.team), g, h, k, transpose)
  {
    var p := (j: JoinedRow) => j.row.team == js[i].row.team;
    FilterAtRank(js, p, i);
    g := Rank(js, p, i);
  }

  /** The corrected matrix of joined row `i`: the last `h` games its team
      played before it. */
  function GameMatrixIntended(js: seq<JoinedRow>, i: nat, h: nat, k: nat, transpose: bool): (m: Matrix)
    requires i < |js| && JoinedUniform(js, k)
    ensures Valid(m)
    ensures !transpose ==> m.height == h && m.width == 3 * k
    ensures transpose ==> m.height == 3 * k && m.width == h
  {
    var p := (j: JoinedRow) => j.row.team == js[i].row.team;
    FilterAtRank(js, p, i);
    var th := TeamHistory(js, js[i].row.team);
    PregameMatrix(th, Rank(js, p, i), h, k, transpose)
  }

  /** The corrected window of joined row `i` holds the last `h` games its
      team played strictly before it in table order, and nothing else. */
  lemma GameMatrixIntendedUsesEarlierGames(js: seq<JoinedRow>, i: nat, h: nat, k: nat, transpose: bool)
    requires i < |js| && JoinedUniform(js, k)
    ensures GameMatrixIntended(js, i, h, k, transpose)
      == Finish(PriorWindow(TeamHistory(js[..i], js[i].row.team), h, k), h, k, transpose)
  {
    var p := (j: JoinedRow) => j.row.team == js[i].row.team;
    FilterAtRank(js, p, i);
  }

  /** The code's matrix is the corrected one exactly when its team plays
      at least `h` games from row `i` on, so that nothing is cut. */
  lemma GameMatrixAgrees(js: seq<JoinedRow>, i: nat, h: nat, k: nat, transpose: bool)
    requires i < |js| && JoinedUniform(js, k) && h <= GamesFrom(js, i)
    ensures GameMatrix(js, i, h, k, transpose) == GameMatrixIntended(js, i, h, k, transpose)
  {
    var p := (j: JoinedRow) => j.row.team == js[i].row.team;
    FilterAtRank(js, p, i);
    var th := TeamHistory(js, js[i].row.team);
    AsWrittenAgrees(th, Rank(js, p, i), h, k, transpose);
  }

  /** The per-team dictionaries of `build_timeseries`, flattened to one map
      keyed by (team, game key), for joined rows whose keys do not repeat. */
  function Timeseries(js: seq<JoinedRow>, h: nat, k: nat, transpose: bool): (d: map<(string, seq<string>), Matrix>)
    requires JoinedUniform(js, k) && !HasRepeat(js, TeamGame)
    ensures forall key :: key in d <==> exists i :: 0 <= i < |js| && TeamGame(js[i]) == key
    ensures forall i :: 0 <= i < |js| ==> TeamGame(js[i]) in d && d[TeamGame(js[i])] == GameMatrix(js, i, h, k, transpose)
  {
    Entries(js, GameMatrices(js, h, k, transpose), |js|)
  }

  /** The matrix of every joined row, in table order. */
  function GameMatrices(js: seq<JoinedRow>, h: nat, k: nat, transpose: bool): (ms: seq<Matrix>)
    requires JoinedUniform(js, k)
    ensures |ms| == |js|
    ensures forall i :: 0 <= i < |js| ==> ms[i] == GameMatrix(js, i, h, k, transpose)
  {
    seq(|js|, i requires 0 <= i < |js| => GameMatrix(js, i, h, k, transpose))
  }

  /** The dictionary after the loop has stored the first `n` joined rows,
      row `i` with value `vals[i]`. */
  function Entries<V>(js: seq<JoinedRow>, vals: seq<V>, n: nat): (d: map<(string, seq<string>), V>)
    requires n <= |js| == |vals| && !HasRepeat(js, TeamGame)
    ensures forall key :: key in d <==> exists i :: 0 <= i < n && TeamGame(js[i]) == key
    ensures forall i :: 0 <= i < n ==> TeamGame(js[i]) in d && d[TeamGame(js[i])] == vals[i]
    decreases n
  {
    if n == 0 then map[]
    else
      var d := Entries(js, vals, n - 1);
      assert forall i :: 0 <= i < n - 1 ==> TeamGame(js[i]) != TeamGame(js[n - 1]);
      d[TeamGame(js[n - 1]) := vals[n - 1]]
  }

  /** `build_timeseries` after the merge: for every team and game key, the
      matrix of the games before it. It fails when a team has one game key
      on two rows, where the code's `get_loc` does not return a position. */
  function BuildTimeseries(rows: seq<Row>, h: nat, k: nat, transpose: bool)
    : (r: Result<map<(string, seq<string>), Matrix>, Error>)
    requires Uniform(rows, k)
    ensures r.Failure? <==> HasRepeat(MergeOpponent(rows, rows), TeamGame)
    ensures r.Success? ==> r.value == Timeseries(MergeOpponent(rows, rows), h, k, transpose)
  {
    var js := MergeOpponent(rows, rows);
    MergedUniform(rows, k);
    match FindRepeat(js, TeamGame)
    case Some(i) => Failure(AmbiguousGameKey(js[i].row.team, js[i].row.gameKey))
    case None => Success(Timeseries(js, h, k, transpose))
  }
}
