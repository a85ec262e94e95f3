# NBA feature pipeline: a Dafny model of `DataManager`'s feature engineering

This project models the feature-engineering core of the NBA game-outcome
pipeline in `nba/process_data.py`. It works on sequences of per-team-game
box-score rows, in the date order `load_raw_data` sorts them into. The parts
modelled are:

- the key columns: `date_str`, the order-independent `game_key` and the
  directional `team_game_key` (module `Keys`, built on Python's string order
  and `zfill` in `Strings`);
- the home venue per team and year, chosen by a plurality vote over
  locations with `Counter.most_common`'s first-seen tie-break, and the
  `feature_home` flag (`Home`);
- the one-hot date columns and `days_since_last_fight` (`DateFeatures`);
- the rating recurrence of `calculate_team_game_rating` over the
  most-recent-earlier-row lookup (`Table`, `Rating`);
- `build_timeseries`: the self-merge with the opponent's statistics, the
  per-team history window, zero padding, the diff block and the optional
  transpose (`History`, with the numpy operations in `Arrays`);
- `combine_timeseries` (`Combine`);
- `build_event_features` (`Events`);
- the moving averages of `build_moving_average_features` (`Rolling`);
- the column lists each stage registers, and the feature lookup of
  `get_labeled_data` (`Assembly`).

Pandas lookups that raise `KeyError` become `Result` failures (`Wrappers`).
NaN is `None` in an `Option<real>` cell, and `fillna(0)` reads it as `0.0`.
Three things the code gets from elsewhere become parameters:

- the calendar: day-of-week, the year/month/day fields and a day count per date string;
- the rating update `get_new_rating`;
- the constant `starting_rating`.

Behaviours of the code worth knowing, all modelled as the code has them:

- `build_event_features` looks up the other side of each game in a dict.
  A missing other side raises `KeyError`; only a NaN *value* is read as 0.
- The self-merge in `build_timeseries` is an inner join: it drops a row
  with no other side, without an error.
- `np.hstack` in `combine_timeseries` glues along axis 1. With
  `transpose_history_data` set, this triples the time axis, not the feature
  axis.
- The history window is not "the preceding `history_length` games" near
  the end of a team's games (see Findings). `History.BuildTimeseries`
  stores the window as the code computes it.

## Model

| member | source | states |
|---|---|---|
| Strings.ZFillIsFixedDigits | nba/process_data.py:139-140 | below 10^w, `str(n).zfill(w)` is the w-digit decimal rendering of n |
| Keys.PaddedOrder | nba/process_data.py:139-140 | zero-padded numbers below 10^w have width w and compare as strings exactly as they compare as numbers; equal strings mean equal numbers |
| Keys.DateStrOrder | nba/process_data.py:139-140 | for 4-digit years and 2-digit months/days, `date_str` order is calendar order, and distinct dates give distinct strings |
| Keys.Sort3 | nba/process_data.py:141-142 | `sorted([date, team, opponent])` is a sorted rearrangement of the three strings |
| Keys.SortedTripleUnique | nba/process_data.py:141-142 | two sorted rearrangements of the same three strings are equal, so the game key is well defined |
| Keys.GameKeySymmetric | nba/process_data.py:141-142 | both sides of a matchup compute the same `game_key` |
| Keys.TeamGameKeyDirectional | nba/process_data.py:143-144 | the two sides of a matchup between different teams get different `team_game_key`s |
| Strings.StrLtIrreflexive | nba/process_data.py:398 | under Python's `<` on `str` no string is strictly below itself, so a row is never dated before its own date |
| Strings.StrLtAsymmetric | nba/process_data.py:398 | two strings are never each strictly below the other |
| Strings.StrLtTransitive | nba/process_data.py:398 | Python's string `<` is transitive, so `sort_values('date_str')` sorts by a strict order |
| Strings.StrLtTotal | nba/process_data.py:398 | any two strings are equal or ordered one way round, so the string order is total |
| Strings.StrLtConcat | nba/process_data.py:139-140 | concatenations whose first parts have equal length compare by their first parts, then by the rest |
| Strings.ZFill | nba/process_data.py:139-140 | `zfill(w)` leaves a string of width at least w unchanged and otherwise pads it on the left with '0' up to width w |
| Strings.FixedDigitsOrder | nba/process_data.py:139-140 | fixed-width digit strings compare as strings exactly as the numbers compare, and are equal exactly for equal numbers |
| Keys.DateStr | nba/process_data.py:139-140 | for 4-digit years and 2-digit months and days, `date_str` has ten characters: the fixed-width digits of year, month and day, with '-' at positions 4 and 7 |
| Keys.GameKey | nba/process_data.py:141-142 | the game key is sorted under Python's string order and rearranges the date, team tag and opponent tag |
| Keys.TeamGameKey | nba/process_data.py:143-144 | the team game key has three entries, and sorting them gives the game key |
| Table.Load | nba/process_data.py:139-144 | a loaded row carries the `date_str`, `game_key` and `team_game_key` of its raw fields, and keeps every other field |
| Table.LoadedKeys | nba/process_data.py:139-144 | two loaded rows of the same game seen from each side share the game key but not the team game key |
| Table.TeamRows | nba/process_data.py:296 | `df[df['team_tag'] == tag]` holds only rows of that team, drawn from the table |
| Table.TeamRowsComplete | nba/process_data.py:296 | the selection keeps every row of the team |
| Table.MostRecentBefore | nba/process_data.py:397-401 | None exactly when the team has no row dated strictly earlier; otherwise such a row with no later one in table order |
| Table.MostRecentBeforeIsEarlier | nba/process_data.py:397-401 | in a date-sorted table, the lookup for row k's date returns a row before k |
| Seqs.Distinct | nba/process_data.py:234-235 | `drop_duplicates` keeps exactly the elements of the input, each once |
| Seqs.DistinctFirstSeen | nba/process_data.py:234-235 | the kept elements are in order of first occurrence |
| Seqs.FirstMatchOfDistinct | nba/process_data.py:252-266 | the first kept element with a property is the first element of the input with it |
| Seqs.Filter | nba/process_data.py:296 | a boolean-mask selection keeps only elements satisfying the mask, each drawn from the input |
| Seqs.FilterPrefix | nba/process_data.py:296 | selecting from a prefix of the table gives a prefix of the selection |
| Seqs.FilterAtRank | nba/process_data.py:296 | a selected row sits in the selection at the number of earlier selected rows, preceded exactly by the selection of the earlier rows |
| Seqs.FilterKeepsAll | nba/process_data.py:296 | every element satisfying the mask is kept |
| Seqs.LastMatch | nba/process_data.py:398-401 | None exactly when nothing matches; otherwise a matching position with no match after it, as `iloc[-1]` of a selection picks and as a dictionary keeps when later writes overwrite earlier ones (lines 255-256) |
| Seqs.LastMatchPrefix | nba/process_data.py:398-401 | the last match in a prefix is the last match overall when nothing after the prefix matches |
| Seqs.FirstMatch | nba/process_data.py:259-266 | None exactly when nothing matches; otherwise the first matching position, where a loop that raises on the first offending row stops |
| Seqs.FindRepeat | nba/process_data.py:208-211 | None exactly when no two positions share a key; otherwise a position whose key occurs earlier, where `get_loc` on a repeated index label gives no single integer position |
| Home.MostCommon | nba/process_data.py:42-46 | `Counter.most_common(1)` returns an element of the input with maximal count, seen no later than any other element with that count |
| Home.CounterMaxIsPlurality | nba/process_data.py:42-46 | the first-largest count over the first-seen keys is a plurality element that is seen first among equals |
| Home.Locations | nba/process_data.py:36-44 | the counted locations are empty exactly when the team has no row that year, and hold exactly the locations of its rows that year |
| Home.TeamYearRows | nba/process_data.py:38-43 | the boolean-mask selection holds only rows of that team and year, drawn from the table |
| Home.LocationsOfSelection | nba/process_data.py:38-44 | the counted locations are those of the selected rows, one per row and in table order, so each venue is counted once per game played there |
| Home.FindTeamHomeLoc | nba/process_data.py:31-47 | a key exactly for each (team, year) with a row; each value is a location of that team-year with maximal count, first-seen among ties |
| Home.HomeFlags | nba/process_data.py:336-337 | the flag is 0 or 1, and 1 exactly when the row's location is its team-year's home |
| Home.FeatureHome | nba/process_data.py:334-337 | every row's (team, year) has a home entry, so the lookup never fails; the flag is 1 exactly at home |
| Home.EveryRowHasHome | nba/process_data.py:335-337 | every row's own (team, year) is a key of the home dictionary |
| DateFeatures.OneHot | nba/process_data.py:112-114 | one column per observed value, each 0/1 over all rows, and 1 exactly on rows with that value |
| DateFeatures.OneHotDecodes | nba/process_data.py:112-114 | each row has exactly one hot column per field, and it names the row's value |
| DateFeatures.PreviousGame | nba/process_data.py:343 | the previous same-team row: None exactly when there is none, otherwise an earlier same-team row with none in between |
| DateFeatures.DaysSinceLastGame | nba/process_data.py:341-344 | NaN exactly on a team's first row; otherwise today's day count minus that of the team's previous row |
| DateFeatures.Gap | nba/process_data.py:343-344 | a row's gap is NaN exactly when it has no previous same-team row |
| DateFeatures.DaysSinceLastGameIsGap | nba/process_data.py:343-344 | the gap is measured from the one same-team row with no same-team row between it and this row |
| DateFeatures.DaysSinceLastGameNonNegative | nba/process_data.py:342-344 | in a date-sorted table with a monotone day count, no gap is negative |
| Rating.PriorRating | nba/process_data.py:362-372 | `starting_rating` when the team has no row dated strictly earlier; otherwise the postgame rating of such a row with no later one in table order |
| Rating.PriorRatingExtend | nba/process_data.py:362-376 | appending a row dated no earlier than a lookup's date does not change the looked-up prior rating |
| Rating.RatedExtend | nba/process_data.py:362-381 | rating the next row in table order keeps all earlier pregame and postgame ratings consistent with the recurrence |
| Rating.CalculateTeamGameRating | nba/process_data.py:349-383 | pregame rating is `starting_rating` when the team has no strictly earlier row, else that row's postgame rating; postgame is the update of both sides' prior ratings and the result |
| History.Mirrors | nba/process_data.py:179-195 | the rows whose swapped copy joins a row all match it on team, opponent and recomputed game key |
| History.JoinOne | nba/process_data.py:194-195 | a left row joins once per matching mirror, carrying that mirror's statistics |
| History.MergeOpponent | nba/process_data.py:179-195 | every joined row comes from the table and carries the statistics of one of its mirrors |
| History.MirrorIsOtherSide | nba/process_data.py:181-185 | for loaded rows a join partner is exactly the row with tags swapped and the same game key |
| History.MergeOneToOne | nba/process_data.py:194-195 | when each row has exactly one mirror, the merge keeps the rows one for one and in order |
| History.MergeDropsUnmatched | nba/process_data.py:194-195 | a row without a mirror does not appear in the merge: the join drops it silently |
| History.MergedUniform | nba/process_data.py:189-195 | joined rows carry k own and k opponent statistics when every row carries k |
| History.HistoryRow | nba/process_data.py:201-213 | one history row is as wide as the own and opponent statistics together |
| History.HistoryRowCells | nba/process_data.py:201-213 | column c of a history row is the own statistic c and column k + c the opponent's, NaN read as 0 |
| History.ShiftedRow | nba/process_data.py:212-213 | row p of `shift(h)` after `fillna(0)` has the combined width |
| History.ShiftedSlice | nba/process_data.py:211-213 | `iloc[g:g+h]` of the shifted frame has min(h, n-g) rows of the combined width |
| History.PadFront | nba/process_data.py:215-217 | padding gives exactly h rows: zero rows on top, then the window unchanged |
| History.AppendDiff | nba/process_data.py:219-221 | the diff block holds each row's own columns minus its opponent columns, next to the unchanged rows |
| Arrays.Transpose | nba/process_data.py:223-224 | the transpose swaps the shape and puts cell (i, j) at (j, i) |
| Arrays.TransposeTwice | nba/process_data.py:223-224 | transposing twice gives back the matrix |
| Arrays.Layout | nba/process_data.py:223-224 | with or without transposing, each original cell can be read back at its position |
| History.Finish | nba/process_data.py:215-224 | the stored matrix is h by 3k, or 3k by h when transposed; read through the transpose, time step t holds the padded window's own and opponent columns, then own minus opponent |
| History.PregameMatrixAsWritten | nba/process_data.py:210-224 | the matrix the code stores has the h by 3k shape (3k by h when transposed); time step t holds row t of the zero-padded `shift(h).iloc[g:g+h]` slice, then that row's own minus opponent columns |
| History.AsWrittenWindow | nba/process_data.py:211-217 | the code's window holds positions g-h .. g-h+m-1 under h-m zero rows, where m = min(h, n-g) |
| History.PriorWindowIsPaddedTail | nba/process_data.py:210-217 | the intended window is the last min(h, g) earlier games under zero rows |
| History.PregameMatrix | nba/process_data.py:210-224 | the corrected matrix has the code's shape, and time step t holds game g-h+t of the team (zeros before its first game) with the diff block beside it |
| History.AsWrittenWindowAgrees | nba/process_data.py:211-217 | when g + h <= n, the code's window equals the intended one |
| History.AsWrittenIsCutWindow | nba/process_data.py:211-217 | the code's slice is the first min(h, n-g) rows of the intended window: the oldest of the h earlier games, with the most recent cut off |
| History.AsWrittenAgrees | nba/process_data.py:210-224 | when g + h <= n, the code's matrix equals the corrected one |
| History.AsWrittenDropsRecentGames | nba/process_data.py:211-217 | for three games and h = 2, the code stores zeros and game 0 for the last game, where games 0 and 1 were meant |
| History.TeamHistory | nba/process_data.py:198-205 | a team's joined rows are its own and come from the merge |
| History.GameMatrix | nba/process_data.py:203-224 | each joined row gets the code's matrix at its position in its team's history, of the stored shape |
| History.GamesFrom | nba/process_data.py:205-211 | a team has at least one game from any of its own rows on |
| History.GameMatrixUsesEarlierGames | nba/process_data.py:205-224 | the code's matrix for a game is built only from its team's games strictly before it in table order: the first min(h, n) rows of the intended window, n being the team's games from this one on |
| History.TeamPosition | nba/process_data.py:205-211 | a joined row sits at position g of its team's history, after exactly the team's earlier rows, and its matrix is the one the code computes there |
| History.GameMatrixIntended | nba/process_data.py:203-224 | the corrected matrix of each joined row has the stored shape |
| History.GameMatrixIntendedUsesEarlierGames | nba/process_data.py:205-224 | the corrected matrix is built from the last h games the team played strictly before the row in table order, and nothing else |
| History.GameMatrixAgrees | nba/process_data.py:205-224 | when the team plays at least h games from the row on, the code's matrix is the corrected one |
| History.Entries | nba/process_data.py:210-226 | after the first n rows are stored, the dictionary has exactly their keys, each holding its row's value |
| History.Timeseries | nba/process_data.py:203-226 | one entry per (team, game key) present, each the matrix the code computes for that game |
| History.BuildTimeseries | nba/process_data.py:179-226 | fails exactly when a team has one game key on two joined rows (`get_loc` gives no position); otherwise the per-team dictionary |
| Arrays.Sub | nba/process_data.py:243 | `a - b` is cellwise subtraction of same-shape arrays |
| Arrays.HStack3 | nba/process_data.py:244-246 | `np.hstack` glues along axis 1: each row is the three rows side by side |
| Combine.Refs | nba/process_data.py:234-235 | the key rows after `drop_duplicates`: each table row's keys appear once, and only those |
| Combine.CombineRecord | nba/process_data.py:243-246 | the combined record is team block, opponent block, then team minus opponent, in each row |
| Combine.CombineRecordSwap | nba/process_data.py:243-246 | the two sides of a game see each other's blocks swapped and the diff block negated |
| Combine.CombineTimeseries | nba/process_data.py:238-246 | fails exactly when some key row's own or opponent history is absent; otherwise one entry per team and game key, three times as wide |
| Combine.CombineFailsAtFirstMissing | nba/process_data.py:239-242 | the `KeyError` names the first key row with an absent history |
| Combine.CombineLastWriter | nba/process_data.py:239-246 | each entry is the combination written by the last key row for that team and game key |
| Events.MirrorIndex | nba/process_data.py:254-266 | the dict lookup of the other side: None exactly when no row has the reversed key, otherwise the last such row |
| Events.EventOf | nba/process_data.py:259-272 | output keeps the keys, the standalone features with NaN as 0, and each diff is own minus the other side's value, NaN as 0 |
| Events.Paired | nba/process_data.py:266-270 | a row with its other side present is paired with the last distinct row stored under the reversed key, the one the dict returns |
| Events.PairAll | nba/process_data.py:258-272 | one output row per input row, in order |
| Events.EventFeatures | nba/process_data.py:254-273 | fails exactly when some row's other side is absent, naming the first such row; otherwise one output row per row |
| Events.BuildEventFeatures | nba/process_data.py:249-273 | fails exactly when some row's other side has no row, the `KeyError` naming the first such row of the table; otherwise one output row per distinct row in order of first appearance, each paired as the dict returns |
| Events.DistinctRows | nba/process_data.py:251-252 | the rows `drop_duplicates` keeps are rows of the table, so they are well formed |
| Events.UnmatchedDistinct | nba/process_data.py:252-266 | dropping duplicates does not change whether a row's other side has a row |
| Events.SomeUnmatched | nba/process_data.py:252-266 | two tables with the same rows have an unmatched row together |
| Events.DistinctFailsAtFirst | nba/process_data.py:252-266 | the loop over the distinct rows stops at the first unmatched row of the whole table |
| Events.MirrorOfMirror | nba/process_data.py:266 | with unique directed keys, the other side of the other side is the row itself |
| Events.DiffAntisymmetric | nba/process_data.py:266-270 | with unique directed keys, the two sides of a game get opposite diff values |
| Events.SidesOfGame | nba/process_data.py:267-270 | two rows paired with each other have opposite diff values |
| Rolling.Shift | nba/process_data.py:296 | `shift(periods=1)` moves every value one row down with NaN on top |
| Rolling.RollingMean | nba/process_data.py:296 | the rolling mean has one value per row |
| Rolling.ShiftedMeanIsPrior | nba/process_data.py:296 | after the shift, row g's mean is defined exactly when the n values before it exist and none is NaN, and it is their mean |
| Rolling.Column | nba/process_data.py:296 | the column holds statistic c of each row in order |
| Rolling.MovingAverage | nba/process_data.py:291-296 | one moving average per table row |
| Rolling.MovingAverageUsesEarlierGames | nba/process_data.py:291-296 | a row's average is the mean of its team's last n strictly earlier games, defined exactly when there are n and none is NaN |
| Assembly.OneHotNames | nba/process_data.py:112-115 | one `<field>_<value>` name per observed value |
| Assembly.EncodeDates | nba/process_data.py:112-115 | appends the dow, year and month one-hot names to the standalone list only |
| Assembly.AddBoth | nba/process_data.py:345-346 | the column goes on both lists, after the existing ones |
| Assembly.AddHome | nba/process_data.py:338 | `feature_home` goes on the standalone list only |
| Assembly.MovingAverageNames | nba/process_data.py:292-300 | for each statistic, the `rl_avg` and `rl_trend` names with the window length |
| Assembly.AddMovingAverages | nba/process_data.py:302-305 | a moving-average stage appends its names to both lists |
| Assembly.EventManifest | nba/process_data.py:89-96 | every diff column is a standalone column when `build_event_features` runs |
| Assembly.FinalManifest | nba/process_data.py:89-99 | the saved lists extend the lists event features saw, and every diff column is standalone |
| Assembly.DiffNames | nba/process_data.py:319-320 | one `<column>_diff` name per diff column |
| Assembly.AllFeatures | nba/process_data.py:317-320 | `all_features` has one name per standalone and per diff column |
| Assembly.AllFeaturesLayout | nba/process_data.py:317-320 | `all_features` is the standalone columns in order, then each diff column with `_diff` appended |
| Assembly.LabeledColumnMissingAsWritten | nba/process_data.py:317-329 | with the stages in the code's order, `all_features` names a moving-average `_diff` column the feature table does not have |
| Assembly.AllFeaturesInTable | nba/process_data.py:263-270 | event features built from a list set contain every name `all_features` gives for it |
| Assembly.LabeledColumnsPresent | nba/process_data.py:317-320 | with event features built from the final lists, every feature `get_labeled_data` asks for exists |
| Assembly.Select | nba/process_data.py:329 | `row[names]` fails exactly when a name is absent, naming the first; otherwise the cells in order, NaN as 0 |
| Assembly.GetLabeledData | nba/process_data.py:309-331 | fails exactly when some row lacks its label, history or a feature; otherwise three row-aligned arrays of labels, histories and feature vectors |
| Assembly.LabeledDataSucceeds | nba/process_data.py:317-331 | with the corrected stage order, a table with every column and every history yields labeled data |

## Left out

- Reading and writing CSV, pickle and JSON files (`load_raw_data`'s reads, the `save_*`/`load_*` helpers): I/O. The model takes the rows as a sequence.
- `scale_data`: the `QuantileTransformer` fit is floating-point statistics from scikit-learn.
- The `rl_trend` columns' values: `scipy.stats.linregress` is floating-point regression. Only their names are modelled.
- Parsing `date_str` with `pd.to_datetime`, day of week and the day count: pandas' calendar logic. These are function parameters.
- `get_new_rating` and `starting_rating`: they live in `nba/common.py`, which is not part of this model. They are parameters.
- `presplit_teams_and_players` and the `get_*_record_right_after_date` and player lookups: the pipeline stages modelled here do not call them.
- The player table: the stages modelled here read only the team table.
- `attach_label_to_features`: the merge that adds `win` is taken as done. `Assembly.FeatureTableColumns` lists `win` among the feature table's columns.
- `tqdm` progress bars, `@timeit` timing and `print`: output only.
- `nba/models.py`: model training is outside the feature pipeline.
- Assembly.MovingAverageNames: lists the names in column order. The code's `new_features` is a Python set, whose order is fixed by hashing. The observed date values and the `game_ids` loop also come in set order. The observed values are parameters, taken in the order given.
- Rolling.RollingMean: requires a window of at least 1; the pipeline calls it with 3, 10 and 50 (process_data.py:97-99).
- Rolling.RollingMean: states only the length. Its values are stated by `Rolling.ShiftedMeanIsPrior`.
- Rolling.MovingAverage: states only the length. Its values are stated by `Rolling.MovingAverageUsesEarlierGames`.
- History.ShiftedRow: states only the width. The rows the code's window holds are stated by `History.AsWrittenWindow`.
- History.ShiftedSlice: states the length and the rows as shifted rows. What they hold is stated by `History.AsWrittenWindow`.
- History.GameMatrix: states only the shape. Its content is stated by `History.GameMatrixUsesEarlierGames` and `History.GameMatrixAgrees`.
- History.GameMatrixIntended: states only the shape. Its content is stated by `History.GameMatrixIntendedUsesEarlierGames`.
- Home.Locations: states emptiness and membership. The order and the one-location-per-row multiplicity are stated by `Home.LocationsOfSelection`.
- History.HistoryRow: states only the width. Its cells are stated by `History.HistoryRowCells`.
- History.Timeseries: does not model a team whose rows all lack mirrors. The code gives such a team an empty inner dictionary, and the flat map has no entry for it.
- Table order is taken to be date order, as `sort_values('date_str')` leaves it. The tie order of pandas' sort is not modelled.
- History.BuildTimeseries and `Events.EventFeatures`: the data frame is a sequence of records with a statistics vector. Column selection by name is modelled only in `Assembly`.

## Findings

| source | as written | input that shows it | evidently intended | confidence | as-written member | corrected member |
|---|---|---|---|---|---|---|
| nba/process_data.py:211-217 | `shift(h).iloc[g:g+h]` takes rows g..g+h-1 of the frame shifted by h, i.e. games g-h..g-1 only while g+h <= n; near the end of the team's games the slice is cut short | one team with three games, h = 2, g = 2: stored window is [zeros, game 0] | the h games just before g, zero-padded at the start | high, not executed | History.AsWrittenDropsRecentGames | History.PregameMatrix |
| nba/process_data.py:317-320 | `all_features` lists a `_diff` column for every diff column, including the moving averages added after `build_event_features` ran (lines 96-99), which never built those `_diff` columns | one observed value per date field and statistic `pts`: `feature_team_rl_avg_pts_3_diff` is requested but absent (a `KeyError` in current pandas) | every requested column exists, e.g. event features built after the moving-average stages | medium, not executed | Assembly.LabeledColumnMissingAsWritten | Assembly.LabeledColumnsPresent |

For the first row, `History.BuildTimeseries` stores the code's matrix,
`History.PregameMatrixAsWritten`. The corrected matrix is
`History.PregameMatrix`, and `History.GameMatrixIntended` builds it for each
joined row. `History.PriorWindowIsPaddedTail` proves that its window holds
the last `min(h, g)` earlier games. `History.GameMatrixIntendedUsesEarlierGames`
proves that each corrected matrix comes from its team's games strictly
before it. `History.GameMatrixUsesEarlierGames` proves that the code's
matrix uses those games too, but keeps only the oldest `min(h, n)` of the
`h`. `History.GameMatrixAgrees` proves that the two agree whenever the team
plays at least `h` games from the row on. For the second row,
`Assembly.LabeledDataSucceeds` proves that labeled data exists once the
event features are built from the final column lists.
