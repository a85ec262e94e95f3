/** `build_event_features`: one feature row per distinct team-game, its
    standalone features plus, for each diff column, the team's value minus
    the opponent's value in the same game. */
module Events {
  import opened Wrappers
  import opened Seqs
  import opened Table

  /** A row of the key columns and the standalone feature columns, the
      features in column order. */
  datatype FeatureRow = FeatureRow(gameKey: seq<string>, team: string, opponent: string, date: string, features: seq<Cell>)

  /** An output row: key columns, standalone features with NaN read as 0,
      and one `<column>_diff` value per diff column. */
  datatype EventRow = EventRow(gameKey: seq<string>, team: string, opponent: string, date: string, features: seq<real>, diffs: seq<real>)

  /** The key of `rows_dicts`: game key, team, opponent. */
  function Directed(r: FeatureRow): (seq<string>, string, string) {
    (r.gameKey, r.team, r.opponent)
  }

  /** The key under which the other side of `r`'s game is stored. */
  function Reversed(r: FeatureRow): (seq<string>, string, string) {
    (r.gameKey, r.opponent, r.team)
  }

  /** Every row has `width` features and every diff column names one of them. */
  predicate WellFormed(rows: seq<FeatureRow>, diffCols: seq<nat>, width: nat) {
    (forall i :: 0 <= i < |rows| ==> |rows[i].features| == width)
    && forall c :: 0 <= c < |diffCols| ==> diffCols[c] < width
  }

  /** The row `rows_dicts` returns for the other side of row `r`: the last
      distinct row stored under the reversed key. */
  function MirrorIndex(rows: seq<FeatureRow>, r: FeatureRow): (m: Option<nat>)
    ensures m.None? <==> forall j :: 0 <= j < |rows| ==> Directed(rows[j]) != Reversed(r)
    ensures m.Some? ==> m.value < |rows| && Directed(rows[m.value]) == Reversed(r)
    ensures m.Some? ==> forall j :: m.value < j < |rows| ==> Directed(rows[j]) != Reversed(r)
  {
    LastMatch(rows, (x: FeatureRow) => Directed(x) == Reversed(r))
  }

  /** Does the other side of row `r` have no row? */
  predicate Unmatched(rows: seq<FeatureRow>, r: FeatureRow) {
    forall j :: 0 <= j < |rows| ==> Directed(rows[j]) != Reversed(r)
  }

  /** The output row of `r` given the other side `o`. */
  function EventOf(r: FeatureRow, o: FeatureRow, diffCols: seq<nat>, width: nat): (e: EventRow)
    requires |r.features| == width && |o.features| == width
    requires forall c :: 0 <= c < |diffCols| ==> diffCols[c] < width
    ensures (e.gameKey, e.team, e.opponent, e.date) == (r.gameKey, r.team, r.opponent, r.date)
    ensures e.features == FillNaAll(r.features)
    ensures |e.diffs| == |diffCols|
    ensures forall c :: 0 <= c < |diffCols| ==>
      e.diffs[c] == FillNa(r.features[diffCols[c]]) - FillNa(o.features[diffCols[c]])
  {
    EventRow(r.gameKey, r.team, r.opponent, r.date, FillNaAll(r.features),
      seq(|diffCols|, c requires 0 <= c < |diffCols| => FillNa(r.features[diffCols[c]]) - FillNa(o.features[diffCols[c]])))
  }

  /** The output row of row `i` of `u`, whose other side is present. */
  function Paired(u: seq<FeatureRow>, i: nat, diffCols: seq<nat>, width: nat): (e: EventRow)
    requires WellFormed(u, diffCols, width) && i < |u| && !Unmatched(u, u[i])
    ensures exists m :: (0 <= m < |u| && Directed(u[m]) == Reversed(u[i])
      && (forall j :: m < j < |u| ==> Directed(u[j]) != Reversed(u[i]))
      && e == EventOf(u[i], u[m], diffCols, width))
  {
    EventOf(u[i], u[MirrorIndex(u, u[i]).value], diffCols, width)
  }

  /** The output rows of `u` when every row has its other side. */
  function PairAll(u: seq<FeatureRow>, diffCols: seq<nat>, width: nat): (es: seq<EventRow>)
    requires WellFormed(u, diffCols, width) && forall i {:trigger Unmatched(u, u[i])} :: 0 <= i < |u| ==> !Unmatched(u, u[i])
    ensures |es| == |u| && forall i :: 0 <= i < |u| ==> es[i] == Paired(u, i, diffCols, width)
  {
    seq(|u|, i requires 0 <= i < |u| => Paired(u, i, diffCols, width))
  }

  /** The main loop of `build_event_features` over the distinct rows `u`:
      a `KeyError` at the first row whose other side is absent, otherwise
      one output row per row, in order. */
  function EventFeatures(u: seq<FeatureRow>, diffCols: seq<nat>, width: nat): (r: Result<seq<EventRow>, Error>)
    requires WellFormed(u, diffCols, width)
    ensures r.Failure? <==> exists i {:trigger Unmatched(u, u[i])} :: 0 <= i < |u| && Unmatched(u, u[i])
    ensures r.Failure? ==> exists i {:trigger Unmatched(u, u[i])} :: (0 <= i < |u| && Unmatched(u, u[i])
        && r.error == MissingMirror(u[i].gameKey, u[i].team, u[i].opponent)
        && forall j {:trigger Unmatched(u, u[j])} :: 0 <= j < i ==> !Unmatched(u, u[j]))
    ensures r.Success? ==> |r.value| == |u| && forall i {:trigger r.value[i]} :: 0 <= i < |r.value| ==>
        !Unmatched(u, u[i]) && r.value[i] == Paired(u, i, diffCols, width)
  {
    var p := (x: FeatureRow) => Unmatched(u, x);
    match FirstMatch(u, p)
    case Some(i) =>
      assert p(u[i]) && forall j :: 0 <= j < i ==> !p(u[j]);
      Failure(MissingMirror(u[i].gameKey, u[i].team, u[i].opponent))
    case None =>
      assert forall i :: 0 <= i < |u| ==> !p(u[i]);
      Success(PairAll(u, diffCols, width))
  }

  /** `build_event_features`: `drop_duplicates`, then the loop. It fails
      exactly when some row's other side has no row, naming the first such
      row of the table; otherwise it gives one output row per distinct row,
      in order of first appearance, each paired with the row the dict holds
      for its other side. */
  function BuildEventFeatures(rows: seq<FeatureRow>, diffCols: seq<nat>, width: nat): (r: Result<seq<EventRow>, Error>)
    requires WellFormed(rows, diffCols, width)
    ensures WellFormed(Distinct(rows), diffCols, width)
    ensures r.Failure? <==> exists i {:trigger Unmatched(rows, rows[i])} :: 0 <= i < |rows| && Unmatched(rows, rows[i])
    ensures r.Failure? ==> exists i {:trigger Unmatched(rows, rows[i])} :: (0 <= i < |rows| && Unmatched(rows, rows[i])
        && r.error == MissingMirror(rows[i].gameKey, rows[i].team, rows[i].opponent)
        && forall j {:trigger Unmatched(rows, rows[j])} :: 0 <= j < i ==> !Unmatched(rows, rows[j]))
    ensures r.Success? ==> |r.value| == |Distinct(rows)| && forall i {:trigger r.value[i]} :: 0 <= i < |r.value| ==>
        !Unmatched(Distinct(rows), Distinct(rows)[i]) && r.value[i] == Paired(Distinct(rows), i, diffCols, width)
  {
    var u := Distinct(rows);
    DistinctRows(rows, diffCols, width);
    DistinctFailsAtFirst(rows, diffCols, width);
    UnmatchedDistinct(rows);
    SomeUnmatched(rows, u);
    EventFeatures(u, diffCols, width)
  }

  /** The distinct rows are rows of the table, so they are well formed too. */
  lemma DistinctRows(rows: seq<FeatureRow>, diffCols: seq<nat>, width: nat)
    requires WellFormed(rows, diffCols, width)
    ensures forall i :: 0 <= i < |Distinct(rows)| ==> Distinct(rows)[i] in rows
    ensures WellFormed(Distinct(rows), diffCols, width)
  {
    var u := Distinct(rows);
    forall i | 0 <= i < |u| ensures u[i] in rows && |u[i].features| == width {
      assert u[i] in u;
      var k := FirstIndex(rows, u[i]);
    }
  }

  /** The other side of `x` has a distinct row exactly when it has a row. */
  lemma UnmatchedDistinct(rows: seq<FeatureRow>)
    ensures forall x :: Unmatched(Distinct(rows), x) <==> Unmatched(rows, x)
  {
    var u := Distinct(rows);
    forall x ensures Unmatched(u, x) <==> Unmatched(rows, x) {
      if !Unmatched(u, x) {
        var j :| 0 <= j < |u| && Directed(u[j]) == Reversed(x);
        assert u[j] in rows;
      }
      if !Unmatched(rows, x) {
        var j :| 0 <= j < |rows| && Directed(rows[j]) == Reversed(x);
        assert rows[j] in u;
      }
    }
  }

  /** Two tables with the same rows and the same unmatched rows have an
      unmatched row together. */
  lemma SomeUnmatched(rows: seq<FeatureRow>, u: seq<FeatureRow>)
    requires forall x :: x in u <==> x in rows
    requires forall x :: Unmatched(u, x) <==> Unmatched(rows, x)
    ensures (exists k {:trigger Unmatched(u, u[k])} :: 0 <= k < |u| && Unmatched(u, u[k]))
      <==> exists i {:trigger Unmatched(rows, rows[i])} :: 0 <= i < |rows| && Unmatched(rows, rows[i])
  {
    if exists i {:trigger Unmatched(rows, rows[i])} :: 0 <= i < |rows| && Unmatched(rows, rows[i]) {
      var i :| 0 <= i < |rows| && Unmatched(rows, rows[i]);
      assert rows[i] in u;
      var k :| 0 <= k < |u| && u[k] == rows[i];
      assert Unmatched(u, u[k]);
    }
    if exists k {:trigger Unmatched(u, u[k])} :: 0 <= k < |u| && Unmatched(u, u[k]) {
      var k :| 0 <= k < |u| && Unmatched(u, u[k]);
      assert u[k] in rows;
      var i := FirstIndex(rows, u[k]);
      assert Unmatched(rows, rows[i]);
    }
  }

  /** The loop over the distinct rows stops at the first unmatched row of
      all rows: the distinct rows keep the order of first appearance. */
  lemma DistinctFailsAtFirst(rows: seq<FeatureRow>, diffCols: seq<nat>, width: nat)
    requires WellFormed(rows, diffCols, width)
    ensures WellFormed(Distinct(rows), diffCols, width)
    ensures var r := EventFeatures(Distinct(rows), diffCols, width);
      r.Failure? ==> exists f {:trigger Unmatched(rows, rows[f])} :: (0 <= f < |rows| && Unmatched(rows, rows[f])
        && r.error == MissingMirror(rows[f].gameKey, rows[f].team, rows[f].opponent)
        && forall j {:trigger Unmatched(rows, rows[j])} :: 0 <= j < f ==> !Unmatched(rows, rows[j]))
  {
    var u := Distinct(rows);
    DistinctRows(rows, diffCols, width);
    var r := EventFeatures(u, diffCols, width);
    if r.Failure? {
      UnmatchedDistinct(rows);
      var i :| 0 <= i < |u| && Unmatched(u, u[i])
        && r.error == MissingMirror(u[i].gameKey, u[i].team, u[i].opponent)
        && forall j {:trigger Unmatched(u, u[j])} :: 0 <= j < i ==> !Unmatched(u, u[j]);
      var f := FirstIndex(rows, u[i]);
      var p := (x: FeatureRow) => Unmatched(rows, x);
      forall j | 0 <= j < i ensures !p(u[j]) {
        assert !Unmatched(u, u[j]);
      }
      assert p(u[i]);
      FirstMatchOfDistinct(rows, p, i);
      assert rows[f] == u[i];
      assert forall j :: 0 <= j < f ==> !Unmatched(rows, rows[j]) by {
        forall j | 0 <= j < f ensures !Unmatched(rows, rows[j]) {
          assert !p(rows[j]);
        }
      }
    }
  }

  /** When no two rows share a (game key, team, opponent) key, the other
      side of the other side of a row is the row itself. */
  lemma MirrorOfMirror(u: seq<FeatureRow>, i: nat)
    requires !HasRepeat(u, Directed)
    requires i < |u| && MirrorIndex(u, u[i]).Some?
    ensures MirrorIndex(u, u[MirrorIndex(u, u[i]).value]) == Some(i)
  {
    var m := MirrorIndex(u, u[i]).value;
    assert Directed(u[i]) == Reversed(u[m]);
    var back := MirrorIndex(u, u[m]);
    assert back.Some?;
    var b := back.value;
    assert Directed(u[b]) == Directed(u[i]);
  }

  /** When no two rows share a (game key, team, opponent) key, the output
      rows of the two sides of a game carry opposite diff values. */
  lemma DiffAntisymmetric(u: seq<FeatureRow>, diffCols: seq<nat>, width: nat, i: nat)
    requires WellFormed(u, diffCols, width) && !HasRepeat(u, Directed)
    requires i < |u| && !Unmatched(u, u[i])
    ensures MirrorIndex(u, u[i]).Some? && !Unmatched(u, u[MirrorIndex(u, u[i]).value])
    ensures var m := MirrorIndex(u, u[i]).value;
      forall c :: 0 <= c < |diffCols| ==> Paired(u, m, diffCols, width).diffs[c] == -Paired(u, i, diffCols, width).diffs[c]
  {
    var m := MirrorIndex(u, u[i]).value;
    MirrorOfMirror(u, i);
    SidesOfGame(u[i], u[m], Paired(u, i, diffCols, width), Paired(u, m, diffCols, width), diffCols, width);
  }

  /** The diff values of two rows paired with each other are opposite. */
  lemma SidesOfGame(a: FeatureRow, b: FeatureRow, ea: EventRow, eb: EventRow, diffCols: seq<nat>, width: nat)
    requires |a.features| == width && |b.features| == width
    requires forall c :: 0 <= c < |diffCols| ==> diffCols[c] < width
    requires ea == EventOf(a, b, diffCols, width) && eb == EventOf(b, a, diffCols, width)
    ensures forall c :: 0 <= c < |diffCols| ==> eb.diffs[c] == -ea.diffs[c]
  {
  }
}
