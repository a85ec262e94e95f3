/** The keys derived when the raw box scores are loaded: `date_str`,
    the order-independent `game_key` and the directional `team_game_key`.
    A key is the list of three strings itself, not Python's printed form of it. */
module Keys {
  import opened Strings

  /** `date_str`: year padded to four digits, month and day to two, joined
      by '-'. For in-range fields this is the ten-character `YYYY-MM-DD`
      string whose fields are the fixed-width digits of the numbers. */
  function DateStr(year: nat, month: nat, day: nat): (r: string)
    ensures year < 10000 && month < 100 && day < 100 ==>
      && |r| == 10 && r[4] == '-' && r[7] == '-'
      && r[..4] == FixedDigits(year, 4)
      && r[5..7] == FixedDigits(month, 2)
      && r[8..] == FixedDigits(day, 2)
  {
    var y, m, d := Padded(year, 4), Padded(month, 2), Padded(day, 2);
    if year < 10000 && month < 100 && day < 100 then
      Pow10Values();
      ZFillIsFixedDigits(year, 4);
      ZFillIsFixedDigits(month, 2);
      ZFillIsFixedDigits(day, 2);
      JoinedFields(y, m, d);
      y + "-" + m + "-" + d
    else
      y + "-" + m + "-" + d
  }

  /** Where the fields of a `YYYY-MM-DD` join sit. */
  lemma JoinedFields(y: string, m: string, d: string)
    requires |y| == 4 && |m| == 2 && |d| == 2
    ensures var r := y + "-" + m + "-" + d;
      && |r| == 10 && r[4] == '-' && r[7] == '-'
      && r[..4] == y && r[5..7] == m && r[8..] == d
  {
    var r := y + "-" + m + "-" + d;
    assert r == y + ("-" + m + "-" + d);
    assert r[5..] == m + "-" + d;
    assert r[8..] == d;
  }

  /** `str(n).zfill(w)`. */
  function Padded(n: nat, w: nat): string {
    ZFill(NatToString(n), w)
  }

  /** Whether date (y1, m1, d1) is earlier than (y2, m2, d2) on the calendar. */
  predicate Earlier(y1: nat, m1: nat, d1: nat, y2: nat, m2: nat, d2: nat) {
    y1 < y2 || (y1 == y2 && (m1 < m2 || (m1 == m2 && d1 < d2)))
  }

  /** Joining equal-width fields with '-' keeps the field-by-field order,
      and the joined string determines the fields. */
  lemma JoinOrder(p: string, x: string, q: string, y: string)
    requires |p| == |q|
    ensures StrLt(p + "-" + x, q + "-" + y) <==> StrLt(p, q) || (p == q && StrLt(x, y))
    ensures p + "-" + x == q + "-" + y <==> p == q && x == y
  {
    StrLtConcat(p + "-", x, q + "-", y);
    StrLtConcat(p, "-", q, "-");
    StrLtIrreflexive("-");
    if p + "-" + x == q + "-" + y {
      assert (p + "-" + x)[..|p|] == p && (q + "-" + y)[..|q|] == q;
      assert (p + "-" + x)[|p| + 1..] == x && (q + "-" + y)[|q| + 1..] == y;
    }
  }

  /** Below `10^w`, a zero-padded number compares as a string exactly as the
      number compares. */
  lemma PaddedOrder(n: nat, m: nat, w: nat)
    requires 1 <= w && n < Pow10(w) && m < Pow10(w)
    ensures |Padded(n, w)| == w && |Padded(m, w)| == w
    ensures StrLt(Padded(n, w), Padded(m, w)) <==> n < m
    ensures Padded(n, w) == Padded(m, w) <==> n == m
  {
    ZFillIsFixedDigits(n, w);
    ZFillIsFixedDigits(m, w);
    FixedDigitsOrder(n, m, w);
  }

  /** Three '-'-joined fields of equal widths compare field by field. */
  lemma Join3Order(ya: string, ma: string, da: string, yb: string, mb: string, db: string)
    requires |ya| == |yb| && |ma| == |mb|
    ensures StrLt(ya + "-" + ma + "-" + da, yb + "-" + mb + "-" + db)
        <==> StrLt(ya, yb) || (ya == yb && (StrLt(ma, mb) || (ma == mb && StrLt(da, db))))
    ensures ya + "-" + ma + "-" + da == yb + "-" + mb + "-" + db <==> ya == yb && ma == mb && da == db
  {
    JoinOrder(ya, ma, yb, mb);
    JoinOrder(ya + "-" + ma, da, yb + "-" + mb, db);
  }

  lemma Pow10Values()
    ensures Pow10(2) == 100 && Pow10(4) == 10000
  {
  }

  /** Within four-digit years and two-digit months and days, comparing
      `date_str` values as strings is comparing the dates, and distinct
      dates give distinct strings. */
  lemma DateStrOrder(y1: nat, m1: nat, d1: nat, y2: nat, m2: nat, d2: nat)
    requires y1 < 10000 && y2 < 10000 && m1 < 100 && m2 < 100 && d1 < 100 && d2 < 100
    ensures StrLt(DateStr(y1, m1, d1), DateStr(y2, m2, d2)) <==> Earlier(y1, m1, d1, y2, m2, d2)
    ensures DateStr(y1, m1, d1) == DateStr(y2, m2, d2) <==> (y1, m1, d1) == (y2, m2, d2)
  {
    Pow10Values();
    PaddedOrder(y1, y2, 4);
    PaddedOrder(m1, m2, 2);
    PaddedOrder(d1, d2, 2);
    Join3Order(Padded(y1, 4), Padded(m1, 2), Padded(d1, 2), Padded(y2, 4), Padded(m2, 2), Padded(d2, 2));
  }

  /** `r` lists `a`, `b` and `c` in some order. */
  predicate Perm3(r: seq<string>, a: string, b: string, c: string) {
    || r == [a, b, c] || r == [a, c, b] || r == [b, a, c]
    || r == [b, c, a] || r == [c, a, b] || r == [c, b, a]
  }

  /** Sorted triple: each entry is at most the next. */
  predicate Sorted3(r: seq<string>) {
    |r| == 3 && StrLe(r[0], r[1]) && StrLe(r[1], r[2])
  }

  /** `sorted([a, b, c])` under Python's string order. */
  function Sort3(a: string, b: string, c: string): (r: seq<string>)
    ensures Sorted3(r)
    ensures Perm3(r, a, b, c)
  {
    StrLtTotal(a, b); StrLtTotal(b, c); StrLtTotal(a, c);
    if StrLe(a, b) then
      if StrLe(b, c) then [a, b, c]
      else if StrLe(a, c) then [a, c, b]
      else [c, a, b]
    else
      if StrLe(a, c) then [b, a, c]
      else if StrLe(b, c) then [b, c, a]
      else [c, b, a]
  }

  /** `game_key`: the sorted triple of date string, team tag and opponent tag. */
  function GameKey(date: string, team: string, opponent: string): (r: seq<string>)
    ensures Sorted3(r) && Perm3(r, date, team, opponent)
  {
    Sort3(date, team, opponent)
  }

  /** `team_game_key`: the same triple in its given order, so the game key
      is the team game key sorted. */
  function TeamGameKey(date: string, team: string, opponent: string): (r: seq<string>)
    ensures |r| == 3 && Perm3(GameKey(date, team, opponent), r[0], r[1], r[2])
  {
    [date, team, opponent]
  }

  /** Two sorted arrangements of the same three strings are the same triple. */
  lemma SortedTripleUnique(r: seq<string>, s: seq<string>, a: string, b: string, c: string)
    requires Sorted3(r) && Perm3(r, a, b, c)
    requires Sorted3(s) && Perm3(s, a, b, c)
    ensures r == s
  {
    StrLtAsymmetric(a, b);
    StrLtAsymmetric(a, c);
    StrLtAsymmetric(b, c);
    StrLtIrreflexive(a);
    StrLtIrreflexive(b);
    StrLtIrreflexive(c);
    if StrLt(a, b) && StrLt(b, c) { StrLtTransitive(a, b, c); }
    if StrLt(a, c) && StrLt(c, b) { StrLtTransitive(a, c, b); }
    if StrLt(b, a) && StrLt(a, c) { StrLtTransitive(b, a, c); }
    if StrLt(b, c) && StrLt(c, a) { StrLtTransitive(b, c, a); }
    if StrLt(c, a) && StrLt(a, b) { StrLtTransitive(c, a, b); }
    if StrLt(c, b) && StrLt(b, a) { StrLtTransitive(c, b, a); }
  }

  /** The game key is the same whichever side of the matchup computes it. */
  lemma GameKeySymmetric(date: string, a: string, b: string)
    ensures GameKey(date, a, b) == GameKey(date, b, a)
  {
    SortedTripleUnique(Sort3(date, a, b), Sort3(date, b, a), date, a, b);
  }

  /** The team game key tells the two sides apart. */
  lemma TeamGameKeyDirectional(date: string, a: string, b: string)
    requires a != b
    ensures TeamGameKey(date, a, b) != TeamGameKey(date, b, a)
  {
    assert TeamGameKey(date, a, b)[1] != TeamGameKey(date, b, a)[1];
  }
}
