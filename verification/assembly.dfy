/** The column lists the enrichment stages register, and the feature-list
    assembly of `get_labeled_data`. */
module Assembly {
  import opened Wrappers
  import opened Strings
  import opened Arrays

  /** The two column lists the stages append to: `standalone_feature_columns`
      and `diff_feature_cols`. */
  datatype Manifest = Manifest(standalone: seq<string>, diff: seq<string>)

  /** `key_columns`. */
  const KeyColumns: seq<string> := ["game_key", "team_tag", "opponent_tag", "date_str"]

  /** The label column. */
  const Target: string := "win"

  /** Every diff column is also a standalone column, which `build_event_features`
      needs: it reads the opponent's value from the standalone columns. */
  predicate DiffsStandalone(m: Manifest) {
    forall i :: 0 <= i < |m.diff| ==> m.diff[i] in m.standalone
  }

  /** Does `r` extend `m`, keeping every column `m` already lists? */
  predicate Extends(r: Manifest, m: Manifest) {
    |m.standalone| <= |r.standalone| && r.standalone[..|m.standalone|] == m.standalone
    && |m.diff| <= |r.diff| && r.diff[..|m.diff|] == m.diff
  }

  /** The one-hot column names `<field>_<v>` of a date field's observed values. */
  function OneHotNames(field: string, values: seq<nat>): (names: seq<string>)
    ensures |names| == |values|
    ensures forall i :: 0 <= i < |values| ==> names[i] == field + "_" + NatToString(values[i])
  {
    seq(|values|, i requires 0 <= i < |values| => field + "_" + NatToString(values[i]))
  }

  /** `encode_dates`: the one-hot columns of day of week, year and month,
      standalone only. The observed values come in the order Python's set
      iteration gives them. */
  function EncodeDates(m: Manifest, dows: seq<nat>, years: seq<nat>, months: seq<nat>): (r: Manifest)
    ensures Extends(r, m) && r.diff == m.diff
    ensures r.standalone == m.standalone + OneHotNames("dow", dows) + OneHotNames("year", years) + OneHotNames("month", months)
    ensures DiffsStandalone(m) ==> DiffsStandalone(r)
  {
    Manifest(m.standalone + OneHotNames("dow", dows) + OneHotNames("year", years) + OneHotNames("month", months), m.diff)
  }

  /** A stage that registers one column as both standalone and diff. */
  function AddBoth(m: Manifest, name: string): (r: Manifest)
    ensures Extends(r, m)
    ensures r.standalone == m.standalone + [name] && r.diff == m.diff + [name]
    ensures DiffsStandalone(m) ==> DiffsStandalone(r)
  {
    Manifest(m.standalone + [name], m.diff + [name])
  }

  /** `assign_home_for_teams`: `feature_home`, standalone only. */
  function AddHome(m: Manifest): (r: Manifest)
    ensures Extends(r, m) && r.diff == m.diff && r.standalone == m.standalone + ["feature_home"]
    ensures DiffsStandalone(m) ==> DiffsStandalone(r)
  {
    Manifest(m.standalone + ["feature_home"], m.diff)
  }

  /** The pregame rating column of rating type `t`. */
  function RatingName(t: nat): string {
    "feature_team_pregame_rating_" + NatToString(t)
  }

  /** The average and trend columns of `build_moving_average_features(n)`,
      column by column. */
  function MovingAverageNames(cols: seq<string>, n: nat): (names: seq<string>)
    ensures |names| == 2 * |cols|
    ensures forall i :: 0 <= i < |cols| ==>
      names[2 * i] == "feature_team_rl_avg_" + cols[i] + "_" + NatToString(n)
      && names[2 * i + 1] == "feature_team_rl_trend_" + cols[i] + "_" + NatToString(n)
    decreases |cols|
  {
    if |cols| == 0 then []
    else
      var front := MovingAverageNames(cols[..|cols| - 1], n);
      var c := cols[|cols| - 1];
      front + ["feature_team_rl_avg_" + c + "_" + NatToString(n), "feature_team_rl_trend_" + c + "_" + NatToString(n)]
  }

  /** The new columns of one moving-average stage, registered as both
      standalone and diff. */
  function AddMovingAverages(m: Manifest, cols: seq<string>, n: nat): (r: Manifest)
    ensures Extends(r, m)
    ensures r.standalone == m.standalone + MovingAverageNames(cols, n) && r.diff == m.diff + MovingAverageNames(cols, n)
    ensures DiffsStandalone(m) ==> DiffsStandalone(r)
  {
    var names := MovingAverageNames(cols, n);
    Manifest(m.standalone + names, m.diff + names)
  }

  /** The stages of `update_raw_datasets` up to the ratings: dates, days
      since the last game, home flag, ratings 0 and 1. This is the manifest
      `build_event_features` sees. */
  function EventManifest(dows: seq<nat>, years: seq<nat>, months: seq<nat>): (m: Manifest)
    ensures DiffsStandalone(m)
  {
    var m1 := EncodeDates(Manifest([], []), dows, years, months);
    var m2 := AddBoth(m1, "days_since_last_fight");
    var m3 := AddHome(m2);
    AddBoth(AddBoth(m3, RatingName(0)), RatingName(1))
  }

  /** The manifest saved at the end: the moving-average stages for 3, 10
      and 50 games append to it after the event features are built. */
  function FinalManifest(dows: seq<nat>, years: seq<nat>, months: seq<nat>, cols: seq<string>): (m: Manifest)
    ensures DiffsStandalone(m)
    ensures Extends(m, EventManifest(dows, years, months))
  {
    var e := EventManifest(dows, years, months);
    var m := AddMovingAverages(AddMovingAverages(AddMovingAverages(e, cols, 3), cols, 10), cols, 50);
    assert Extends(m, e) by {
      var a := AddMovingAverages(e, cols, 3);
      var b := AddMovingAverages(a, cols, 10);
      assert m.standalone[..|e.standalone|] == b.standalone[..|a.standalone|][..|e.standalone|];
      assert m.diff[..|e.diff|] == b.diff[..|a.diff|][..|e.diff|];
    }
    m
  }

  /** The `<column>_diff` names of the diff columns. */
  function DiffNames(diff: seq<string>): (names: seq<string>)
    ensures |names| == |diff|
    ensures forall i :: 0 <= i < |diff| ==> names[i] == diff[i] + "_diff"
  {
    seq(|diff|, i requires 0 <= i < |diff| => diff[i] + "_diff")
  }

  /** `all_features` of `get_labeled_data`: the standalone columns, then one
      `_diff` column per diff column. */
  function AllFeatures(m: Manifest): (names: seq<string>)
    ensures |names| == |m.standalone| + |m.diff|
  {
    m.standalone + DiffNames(m.diff)
  }

  /** `all_features` starts with the standalone columns, followed by each
      diff column with `_diff` appended, in order. */
  lemma AllFeaturesLayout(m: Manifest, i: nat)
    requires i < |m.standalone| + |m.diff|
    ensures i < |m.standalone| ==> AllFeatures(m)[i] == m.standalone[i]
    ensures i >= |m.standalone| ==> AllFeatures(m)[i] == m.diff[i - |m.standalone|] + "_diff"
  {
  }

  /** The columns of the feature table when the event features are built
      from manifest `e` and the moving-average columns `extra` are merged in
      afterwards: the standalone and key columns and the `_diff` columns of
      `build_event_features`, the label, and the merged columns. */
  function FeatureTableColumns(e: Manifest, extra: seq<string>): seq<string> {
    e.standalone + KeyColumns + DiffNames(e.diff) + [Target] + extra
  }

  /** The moving-average columns the three stages merge into the feature table. */
  function MovingAverageColumns(cols: seq<string>): seq<string> {
    MovingAverageNames(cols, 3) + MovingAverageNames(cols, 10) + MovingAverageNames(cols, 50)
  }

  /** Proof helper for `LabeledColumnMissingAsWritten`: the lengths of the
      decimal renderings its example needs. */
  lemma SmallNumeralLengths()
    ensures |NatToString(0)| == 1 && |NatToString(1)| == 1 && |NatToString(3)| == 1
    ensures |NatToString(10)| == 2 && |NatToString(50)| == 2 && |NatToString(2020)| == 4
  {
    assert |NatToString(202)| == 3;
  }

  /** Proof helper for `LabeledColumnMissingAsWritten`: the manifest the
      event features see in its example, by construction. */
  lemma ExampleEventManifest(e: Manifest)
    requires e == EventManifest([0], [2020], [1])
    ensures e.standalone == ["dow" + "_" + NatToString(0), "year" + "_" + NatToString(2020), "month" + "_" + NatToString(1),
      "days_since_last_fight", "feature_home", RatingName(0), RatingName(1)]
    ensures e.diff == ["days_since_last_fight", RatingName(0), RatingName(1)]
  {
    var m1 := EncodeDates(Manifest([], []), [0], [2020], [1]);
    assert m1.standalone == ["dow" + "_" + NatToString(0), "year" + "_" + NatToString(2020), "month" + "_" + NatToString(1)];
  }

  /** Proof helper for `LabeledColumnMissingAsWritten`: the lengths of the
      columns in its example's feature table. */
  lemma ExampleTable(e: Manifest, extra: seq<string>)
    requires e == EventManifest([0], [2020], [1]) && extra == MovingAverageColumns(["pts"])
    ensures |e.standalone| == 7 && |e.diff| == 3 && |extra| == 6
    ensures forall i :: 0 <= i < 6 ==> |extra[i]| <= 28
    ensures forall i :: 0 <= i < 7 ==> |e.standalone[i]| <= 29
    ensures forall i :: 0 <= i < 3 ==> |e.diff[i] + "_diff"| >= 26 && |e.diff[i] + "_diff"| != 30
  {
    ExampleEventManifest(e);
    SmallNumeralLengths();
    assert |RatingName(0)| == 29 && |RatingName(1)| == 29;
    ExampleMovingAverageLengths(extra);
  }

  /** Proof helper for `LabeledColumnMissingAsWritten`: its example's
      moving-average columns are at most 28 characters long. */
  lemma ExampleMovingAverageLengths(extra: seq<string>)
    requires extra == MovingAverageColumns(["pts"])
    ensures |extra| == 6 && forall i :: 0 <= i < 6 ==> |extra[i]| <= 28
  {
    SmallNumeralLengths();
    var names := [MovingAverageNames(["pts"], 3), MovingAverageNames(["pts"], 10), MovingAverageNames(["pts"], 50)];
    assert forall k, i :: 0 <= k < 3 && 0 <= i < 2 ==> |names[k][i]| <= 28;
    assert extra == names[0] + names[1] + names[2];
  }

  /** Proof helper for `LabeledColumnMissingAsWritten`: its example's
      feature table has no column of length 30, the length of the missing
      `_diff` name. */
  lemma ExampleTableLengths(e: Manifest, extra: seq<string>)
    requires e == EventManifest([0], [2020], [1]) && extra == MovingAverageColumns(["pts"])
    ensures forall i :: 0 <= i < |FeatureTableColumns(e, extra)| ==> |FeatureTableColumns(e, extra)[i]| != 30
  {
    var table := FeatureTableColumns(e, extra);
    ExampleTable(e, extra);
    assert table == e.standalone + KeyColumns + DiffNames(e.diff) + [Target] + extra;
    forall i | 0 <= i < |table| ensures |table[i]| != 30 {
      if i < 7 {
        assert table[i] == e.standalone[i];
      } else if i < 11 {
        assert table[i] == KeyColumns[i - 7];
      } else if i < 14 {
        assert table[i] == DiffNames(e.diff)[i - 11];
      } else if i == 14 {
      } else {
        assert table[i] == extra[i - 15];
      }
    }
  }

  /** As the stages are ordered, `get_labeled_data` asks for a `_diff`
      column of a moving average that the feature table does not have: with
      one observed value per date field and one statistic `pts`, the column
      `feature_team_rl_avg_pts_3_diff`. */
  lemma LabeledColumnMissingAsWritten()
    ensures var final := FinalManifest([0], [2020], [1], ["pts"]);
      var table := FeatureTableColumns(EventManifest([0], [2020], [1]), MovingAverageColumns(["pts"]));
      var name := "feature_team_rl_avg_" + "pts" + "_" + NatToString(3) + "_diff";
      name in AllFeatures(final) && name !in table
  {
    var e := EventManifest([0], [2020], [1]);
    var final := FinalManifest([0], [2020], [1], ["pts"]);
    var name := "feature_team_rl_avg_" + "pts" + "_" + NatToString(3);
    assert MovingAverageNames(["pts"], 3)[0] == name;
    assert final.diff[|e.diff|] == name;
    var all := AllFeatures(final);
    assert all[|final.standalone| + |e.diff|] == name + "_diff";
    SmallNumeralLengths();
    assert |name + "_diff"| == 30;
    ExampleTableLengths(e, MovingAverageColumns(["pts"]));
  }

  /** With the event features built from the final manifest (after the
      moving averages), every column `get_labeled_data` asks for exists. */
  lemma LabeledColumnsPresent(dows: seq<nat>, years: seq<nat>, months: seq<nat>, cols: seq<string>)
    ensures var final := FinalManifest(dows, years, months, cols);
      forall i :: 0 <= i < |AllFeatures(final)| ==> AllFeatures(final)[i] in FeatureTableColumns(final, [])
  {
    AllFeaturesInTable(FinalManifest(dows, years, months, cols));
  }

  /** The event features built from a manifest have every column that
      `all_features` lists for that manifest. */
  lemma AllFeaturesInTable(m: Manifest)
    ensures forall i :: 0 <= i < |AllFeatures(m)| ==> AllFeatures(m)[i] in FeatureTableColumns(m, [])
  {
    var all := AllFeatures(m);
    var table := FeatureTableColumns(m, []);
    assert table == m.standalone + KeyColumns + DiffNames(m.diff) + [Target];
    forall i | 0 <= i < |all| ensures all[i] in table {
      if i < |m.standalone| {
        assert table[i] == m.standalone[i] == all[i];
      } else {
        var j := i - |m.standalone|;
        assert all[i] == DiffNames(m.diff)[j];
        assert table[|m.standalone| + |KeyColumns| + j] == DiffNames(m.diff)[j];
      }
    }
  }

  /** One row of the feature table: its team and game key, and its cells by
      column name (`None` a NaN). */
  datatype FeatureTableRow = FeatureTableRow(team: string, gameKey: seq<string>, cells: map<string, Option<real>>)

  /** `row[names]` after `row.fillna(0)`: a `KeyError` for the first absent name. */
  function Select(cells: map<string, Option<real>>, names: seq<string>): (r: Result<seq<real>, Error>)
    ensures r.Failure? <==> exists i :: 0 <= i < |names| && names[i] !in cells
    ensures r.Failure? ==> exists i :: (0 <= i < |names| && names[i] !in cells
      && r.error == MissingColumn(names[i]) && forall j :: 0 <= j < i ==> names[j] in cells)
    ensures r.Success? ==> |r.value| == |names| && forall i :: 0 <= i < |names| ==>
      names[i] in cells && r.value[i] == match cells[names[i]] case Some(x) => x case None => 0.0
    decreases |names|
  {
    if |names| == 0 then Success([])
    else if names[0] !in cells then Failure(MissingColumn(names[0]))
    else
      var v := match cells[names[0]] case Some(x) => x case None => 0.0;
      var rest :- Select(cells, names[1..]);
      Success([v] + rest)
  }

  /** The three arrays `get_labeled_data` returns, row-aligned: the combined
      histories (empty when not requested), the feature vectors, the labels. */
  datatype Labeled = Labeled(x1: seq<Matrix>, x2: seq<seq<real>>, y: seq<Option<real>>)

  /** The loop of `get_labeled_data` over the feature table. Each row reads
      its label (NaN kept), then, when histories are requested, its combined
      history, then its feature vector; the first failing lookup raises. */
  function GetLabeledData(table: seq<FeatureTableRow>, m: Manifest, combined: map<(string, seq<string>), Matrix>, withHistory: bool)
    : (r: Result<Labeled, Error>)
    ensures r.Success? ==> |r.value.x2| == |table| && |r.value.y| == |table|
    ensures r.Success? ==> |r.value.x1| == if withHistory then |table| else 0
    ensures r.Success? ==> forall i :: 0 <= i < |table| ==>
      Target in table[i].cells && r.value.y[i] == table[i].cells[Target]
      && Select(table[i].cells, AllFeatures(m)) == Success(r.value.x2[i])
    ensures r.Success? && withHistory ==> forall i :: 0 <= i < |table| ==>
      (table[i].team, table[i].gameKey) in combined && r.value.x1[i] == combined[(table[i].team, table[i].gameKey)]
    ensures r.Failure? <==> exists i :: 0 <= i < |table| && RowFails(table[i], m, combined, withHistory)
    decreases |table|
  {
    if |table| == 0 then Success(Labeled([], [], []))
    else
      var n := |table|;
      var front := table[..n - 1];
      var row := table[n - 1];
      assert forall i :: 0 <= i < n - 1 ==> front[i] == table[i];
      var acc :- GetLabeledData(front, m, combined, withHistory);
      if Target !in row.cells then Failure(MissingColumn(Target))
      else if withHistory && (row.team, row.gameKey) !in combined then Failure(MissingHistory(row.team, row.gameKey))
      else
        var x :- Select(row.cells, AllFeatures(m));
        var x1 := if withHistory then acc.x1 + [combined[(row.team, row.gameKey)]] else acc.x1;
        Success(Labeled(x1, acc.x2 + [x], acc.y + [row.cells[Target]]))
  }

  /** Does some lookup of the row raise? */
  predicate RowFails(row: FeatureTableRow, m: Manifest, combined: map<(string, seq<string>), Matrix>, withHistory: bool) {
    Target !in row.cells
    || (withHistory && (row.team, row.gameKey) !in combined)
    || Select(row.cells, AllFeatures(m)).Failure?
  }

  /** With the event features built from the final manifest, a feature
      table whose rows have every column yields labeled data, provided the
      histories are there when asked for. */
  lemma LabeledDataSucceeds(table: seq<FeatureTableRow>, dows: seq<nat>, years: seq<nat>, months: seq<nat>,
                                               cols: seq<string>, combined: map<(string, seq<string>), Matrix>, withHistory: bool)
    requires var cs := FeatureTableColumns(FinalManifest(dows, years, months, cols), []);
      forall i, j :: 0 <= i < |table| && 0 <= j < |cs| ==> cs[j] in table[i].cells
    requires withHistory ==> forall i :: 0 <= i < |table| ==> (table[i].team, table[i].gameKey) in combined
    ensures GetLabeledData(table, FinalManifest(dows, years, months, cols), combined, withHistory).Success?
  {
    var final := FinalManifest(dows, years, months, cols);
    var cs := FeatureTableColumns(final, []);
    LabeledColumnsPresent(dows, years, months, cols);
    forall i | 0 <= i < |table| ensures !RowFails(table[i], final, combined, withHistory) {
      assert cs[|cs| - 1] == Target;
      var all := AllFeatures(final);
      forall j | 0 <= j < |all| ensures all[j] in table[i].cells {
        var k :| 0 <= k < |cs| && cs[k] == all[j];
      }
    }
  }
}
