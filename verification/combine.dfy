/** `combine_timeseries`: each team's history matrix for a game glued to
    its opponent's matrix for the same game and to their difference. */
module Combine {
  import opened Wrappers
  import opened Seqs
  import opened Table
  import opened Arrays

  /** A row of the key columns `game_key`, `team_tag`, `opponent_tag`, `date_str`. */
  datatype GameRef = GameRef(gameKey: seq<string>, team: string, opponent: string, date: string)

  /** The distinct key rows of the table, in first-seen order (`drop_duplicates`). */
  function Refs(rows: seq<Row>): (refs: seq<GameRef>)
    ensures forall i :: 0 <= i < |rows| ==> GameRef(rows[i].gameKey, rows[i].team, rows[i].opponent, rows[i].date) in refs
    ensures forall i :: 0 <= i < |refs| ==> exists j :: 0 <= j < |rows| && refs[i] == GameRef(rows[j].gameKey, rows[j].team, rows[j].opponent, rows[j].date)
    ensures forall i, j :: 0 <= i < j < |refs| ==> refs[i] != refs[j]
  {
    var all := seq(|rows|, i requires 0 <= i < |rows| => GameRef(rows[i].gameKey, rows[i].team, rows[i].opponent, rows[i].date));
    assert forall i :: 0 <= i < |rows| ==> all[i] == GameRef(rows[i].gameKey, rows[i].team, rows[i].opponent, rows[i].date);
    var refs := Distinct(all);
    assert forall i :: 0 <= i < |refs| ==> refs[i] in all;
    refs
  }

  /** The dictionary key of the team's own history. */
  function OwnKey(g: GameRef): (string, seq<string>) {
    (g.team, g.gameKey)
  }

  /** The dictionary key of the opponent's history for the same game. */
  function OpponentKey(g: GameRef): (string, seq<string>) {
    (g.opponent, g.gameKey)
  }

  /** Every stored history is a valid `height` x `width` array. */
  predicate Shaped(d: map<(string, seq<string>), Matrix>, height: nat, width: nat) {
    forall key :: key in d ==> Valid(d[key]) && d[key].height == height && d[key].width == width
  }

  /** `np.hstack([a, b, a - b])`. */
  function CombineRecord(a: Matrix, b: Matrix): (c: Matrix)
    requires Valid(a) && Valid(b) && a.height == b.height && a.width == b.width
    ensures Valid(c) && c.height == a.height && c.width == 3 * a.width
    ensures forall i, j :: 0 <= i < a.height && 0 <= j < a.width ==>
      c.cells[i][j] == a.cells[i][j] && c.cells[i][a.width + j] == b.cells[i][j]
      && c.cells[i][2 * a.width + j] == a.cells[i][j] - b.cells[i][j]
  {
    HStack3(a, b, Sub(a, b))
  }

  /** The two sides of one game see each other's records swapped and the
      difference block negated: in row `i` and column `j` of a block, the
      team block of one side is the opponent block of the other, and the
      diff blocks are opposite. */
  lemma CombineRecordSwap(a: Matrix, b: Matrix, i: nat, j: nat)
    requires Valid(a) && Valid(b) && a.height == b.height && a.width == b.width
    requires i < a.height && j < a.width
    ensures CombineRecord(b, a).cells[i][j] == CombineRecord(a, b).cells[i][a.width + j]
    ensures CombineRecord(b, a).cells[i][2 * a.width + j] == -CombineRecord(a, b).cells[i][2 * a.width + j]
  {
  }

  /** Is some history the key row needs absent? */
  predicate Missing(d: map<(string, seq<string>), Matrix>, g: GameRef) {
    OwnKey(g) !in d || OpponentKey(g) !in d
  }

  /** Is key row `i` the last one writing its team's entry? */
  predicate LastWriter(refs: seq<GameRef>, i: nat)
    requires i < |refs|
  {
    forall j :: i < j < |refs| ==> OwnKey(refs[j]) != OwnKey(refs[i])
  }

  /** The loop of `combine_timeseries` over the key rows: a `KeyError` as
      soon as a key row's own or opponent history is absent; otherwise one
      entry per team and game key. */
  function CombineTimeseries(refs: seq<GameRef>, d: map<(string, seq<string>), Matrix>, height: nat, width: nat)
    : (r: Result<map<(string, seq<string>), Matrix>, Error>)
    requires Shaped(d, height, width)
    ensures r.Failure? <==> exists i :: 0 <= i < |refs| && Missing(d, refs[i])
    ensures r.Success? ==> Shaped(r.value, height, 3 * width)
    ensures r.Success? ==> forall key :: key in r.value <==> exists i :: 0 <= i < |refs| && OwnKey(refs[i]) == key
    decreases |refs|
  {
    if |refs| == 0 then Success(map[])
    else
      var n := |refs|;
      var front := refs[..n - 1];
      var g := refs[n - 1];
      assert forall i :: 0 <= i < n - 1 ==> front[i] == refs[i];
      var acc :- CombineTimeseries(front, d, height, width);
      if Missing(d, g) then Failure(MissingHistory(g.team, g.gameKey))
      else Success(acc[OwnKey(g) := CombineRecord(d[OwnKey(g)], d[OpponentKey(g)])])
  }

  /** The `KeyError` names the first key row with an absent history. */
  lemma {:induction false} CombineFailsAtFirstMissing(refs: seq<GameRef>, d: map<(string, seq<string>), Matrix>, height: nat, width: nat)
    requires Shaped(d, height, width)
    requires CombineTimeseries(refs, d, height, width).Failure?
    ensures exists i :: (0 <= i < |refs| && Missing(d, refs[i])
      && CombineTimeseries(refs, d, height, width).error == MissingHistory(refs[i].team, refs[i].gameKey)
      && forall j :: 0 <= j < i ==> !Missing(d, refs[j]))
    decreases |refs|
  {
    var n := |refs|;
    var front := refs[..n - 1];
    assert forall i :: 0 <= i < n - 1 ==> front[i] == refs[i];
    if CombineTimeseries(front, d, height, width).Failure? {
      CombineFailsAtFirstMissing(front, d, height, width);
    } else {
      assert Missing(d, refs[n - 1]);
    }
  }

  /** One step of the loop: a successful run extends the run over all but
      the last key row by that row's entry. */
  lemma CombineStep(refs: seq<GameRef>, d: map<(string, seq<string>), Matrix>, height: nat, width: nat)
    requires Shaped(d, height, width)
    requires |refs| > 0 && CombineTimeseries(refs, d, height, width).Success?
    ensures CombineTimeseries(refs[..|refs| - 1], d, height, width).Success?
    ensures !Missing(d, refs[|refs| - 1])
    ensures CombineTimeseries(refs, d, height, width).value
      == CombineTimeseries(refs[..|refs| - 1], d, height, width).value[OwnKey(refs[|refs| - 1]) :=
           CombineRecord(d[OwnKey(refs[|refs| - 1])], d[OpponentKey(refs[|refs| - 1])])]
  {
  }

  /** Each entry is the combination written by the last key row of its
      team and game key: later rows overwrite earlier ones, as in a dict. */
  lemma {:induction false} CombineLastWriter(refs: seq<GameRef>, d: map<(string, seq<string>), Matrix>, height: nat, width: nat, i: nat)
    requires Shaped(d, height, width)
    requires CombineTimeseries(refs, d, height, width).Success?
    requires i < |refs| && LastWriter(refs, i)
    ensures !Missing(d, refs[i])
    ensures CombineTimeseries(refs, d, height, width).value[OwnKey(refs[i])]
      == CombineRecord(d[OwnKey(refs[i])], d[OpponentKey(refs[i])])
    decreases |refs|
  {
    var n := |refs|;
    var front := refs[..n - 1];
    assert forall j :: 0 <= j < n - 1 ==> front[j] == refs[j];
    var g := refs[n - 1];
    CombineStep(refs, d, height, width);
    var acc := CombineTimeseries(front, d, height, width).value;
    var out := acc[OwnKey(g) := CombineRecord(d[OwnKey(g)], d[OpponentKey(g)])];
    assert CombineTimeseries(refs, d, height, width).value == out;
    if i < n - 1 {
      assert LastWriter(front, i);
      CombineLastWriter(front, d, height, width, i);
      assert acc[OwnKey(refs[i])] == CombineRecord(d[OwnKey(refs[i])], d[OpponentKey(refs[i])]);
      assert OwnKey(g) != OwnKey(refs[i]);
      assert out[OwnKey(refs[i])] == acc[OwnKey(refs[i])];
    } else {
      assert out[OwnKey(g)] == CombineRecord(d[OwnKey(g)], d[OpponentKey(g)]);
    }
  }
}
