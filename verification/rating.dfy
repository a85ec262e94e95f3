/** `calculate_team_game_rating`: the Elo-style rating recurrence. The update
    rule `get_new_rating` and the constant `starting_rating` live in a module
    that is not part of this model, so both are parameters here. */
module Rating {
  import opened Wrappers
  import opened Strings
  import opened Seqs
  import opened Table

  /** `get_new_rating(team_pregame, opponent_pregame, win, multiplier, rating_type)`. */
  type Update = (real, real, int, int, int) -> real

  /** The rating team `tag` carries into a game on `date`, looked up in
      `rows` whose postgame ratings are `post`: the postgame rating of its
      most recent strictly earlier row, or `start` when it has none. */
  function PriorRating(rows: seq<Row>, post: seq<real>, tag: string, date: string, start: real): (r: real)
    requires |post| == |rows|
    ensures (forall j :: 0 <= j < |rows| ==> !PlayedBefore(rows[j], tag, date)) ==> r == start
    ensures (exists j :: 0 <= j < |rows| && PlayedBefore(rows[j], tag, date)) ==>
      exists j :: 0 <= j < |rows| && PlayedBefore(rows[j], tag, date) && r == post[j]
        && forall i :: j < i < |rows| ==> !PlayedBefore(rows[i], tag, date)
  {
    match MostRecentBefore(rows, tag, date)
    case None => start
    case Some(j) => post[j]
  }

  /** Rows dated no earlier than `date` cannot be the answer of a lookup
      for `date`: rating the table one row further changes no earlier lookup. */
  lemma PriorRatingExtend(rows: seq<Row>, post: seq<real>, x: real, n: nat, k: nat, tag: string, start: real)
    requires DateSorted(rows) && k <= n < |rows| && |post| == n
    ensures PriorRating(rows[..n + 1], post + [x], tag, rows[k].date, start)
         == PriorRating(rows[..n], post, tag, rows[k].date, start)
  {
    var date := rows[k].date;
    var p := (r: Row) => PlayedBefore(r, tag, date);
    var longer := rows[..n + 1];
    assert longer[..n] == rows[..n];
    assert !p(longer[n]) by {
      if k == n { StrLtIrreflexive(date); } else { StrLtAsymmetric(date, rows[n].date); }
    }
    LastMatchPrefix(longer, n, p);
  }

  /** `pre` and `post` are the pregame and postgame ratings of `rows`:
      each row's pregame rating is its team's prior rating, and its postgame
      rating is the update of both sides' prior ratings and the result. */
  predicate Rated(rows: seq<Row>, pre: seq<real>, post: seq<real>, start: real, update: Update, ratingType: int)
    requires |pre| == |rows| && |post| == |rows|
  {
    forall k :: 0 <= k < |rows| ==>
      && pre[k] == PriorRating(rows, post, rows[k].team, rows[k].date, start)
      && post[k] == update(pre[k], PriorRating(rows, post, rows[k].opponent, rows[k].date, start), rows[k].win, 1, ratingType)
  }

  /** Rating one more row in table order keeps the earlier ratings valid. */
  lemma RatedExtend(rows: seq<Row>, pre: seq<real>, post: seq<real>, n: nat, start: real, update: Update, ratingType: int)
    requires DateSorted(rows) && n < |rows| && |pre| == n && |post| == n
    requires Rated(rows[..n], pre, post, start, update, ratingType)
    ensures var teamPrevious := PriorRating(rows[..n], post, rows[n].team, rows[n].date, start);
            var opponentPrevious := PriorRating(rows[..n], post, rows[n].opponent, rows[n].date, start);
            Rated(rows[..n + 1], pre + [teamPrevious], post + [update(teamPrevious, opponentPrevious, rows[n].win, 1, ratingType)],
                  start, update, ratingType)
  {
    var teamPrevious := PriorRating(rows[..n], post, rows[n].team, rows[n].date, start);
    var opponentPrevious := PriorRating(rows[..n], post, rows[n].opponent, rows[n].date, start);
    var rating := update(teamPrevious, opponentPrevious, rows[n].win, 1, ratingType);
    var longer, pre', post' := rows[..n + 1], pre + [teamPrevious], post + [rating];
    forall k | 0 <= k <= n
      ensures pre'[k] == PriorRating(longer, post', longer[k].team, longer[k].date, start)
      ensures post'[k] == update(pre'[k], PriorRating(longer, post', longer[k].opponent, longer[k].date, start), longer[k].win, 1, ratingType)
    {
      assert longer[k] == rows[k];
      PriorRatingExtend(rows, post, rating, n, k, rows[k].team, start);
      PriorRatingExtend(rows, post, rating, n, k, rows[k].opponent, start);
      if k < n {
        assert rows[..n][k] == rows[k];
      }
    }
  }

  /** The ratings of every row, processed in table order. `pre[i]` is the
      team's pregame rating: `start` when the team has no strictly earlier
      row, otherwise the postgame rating of its latest strictly earlier row.
      `post[i]` is what the update rule gives from that, the opponent's
      pregame rating found the same way, and the result. */
  method CalculateTeamGameRating(rows: seq<Row>, start: real, update: Update, ratingType: int)
    returns (pre: seq<real>, post: seq<real>)
    requires DateSorted(rows)
    ensures |pre| == |rows| && |post| == |rows|
    ensures forall i :: 0 <= i < |rows| && MostRecentBefore(rows, rows[i].team, rows[i].date).None? ==> pre[i] == start
    ensures forall i :: 0 <= i < |rows| && MostRecentBefore(rows, rows[i].team, rows[i].date).Some? ==>
      pre[i] == post[MostRecentBefore(rows, rows[i].team, rows[i].date).value]
    ensures forall i :: 0 <= i < |rows| ==>
      post[i] == update(pre[i], PriorRating(rows, post, rows[i].opponent, rows[i].date, start), rows[i].win, 1, ratingType)
  {
    pre, post := [], [];
    for i := 0 to |rows|
      invariant |pre| == i && |post| == i
      invariant Rated(rows[..i], pre, post, start, update, ratingType)
    {
      var date := rows[i].date;
      var teamPrevious := PriorRating(rows[..i], post, rows[i].team, date, start);
      var opponentPrevious := PriorRating(rows[..i], post, rows[i].opponent, date, start);
      RatedExtend(rows, pre, post, i, start, update, ratingType);
      pre := pre + [teamPrevious];
      post := post + [update(teamPrevious, opponentPrevious, rows[i].win, 1, ratingType)];
    }
    assert rows[..|rows|] == rows;
  }
}
