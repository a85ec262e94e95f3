/** Sequence helpers that stand for Python's Counter, dict insertion order and `iloc[-1]`. */
module Seqs {
  import opened Wrappers

  /** Number of occurrences of `x` in `s`. */
  function Count<T(==)>(s: seq<T>, x: T): (c: nat)
    ensures c <= |s|
    ensures c > 0 <==> x in s
    decreases |s|
  {
    if |s| == 0 then 0
    else Count(s[..|s| - 1], x) + (if s[|s| - 1] == x then 1 else 0)
  }

  /** Position of the first occurrence of `x` in `s`. */
  function FirstIndex<T(==)>(s: seq<T>, x: T): (k: nat)
    requires x in s
    ensures k < |s| && s[k] == x
    ensures forall j :: 0 <= j < k ==> s[j] != x
    decreases |s|
  {
    if x in s[..|s| - 1] then FirstIndex(s[..|s| - 1], x) else |s| - 1
  }

  /** The distinct elements of `s` in first-seen order: the key order of a
      Python dict (or Counter) filled by scanning `s`, and the rows that
      pandas' `drop_duplicates` keeps. */
  function Distinct<T(==,!new)>(s: seq<T>): (d: seq<T>)
    ensures forall x :: x in d <==> x in s
    ensures forall i, j :: 0 <= i < j < |d| ==> d[i] != d[j]
    decreases |s|
  {
    if |s| == 0 then []
    else
      var front := s[..|s| - 1];
      var d := Distinct(front);
      var x := s[|s| - 1];
      assert forall i :: 0 <= i < |front| ==> front[i] == s[i];
      if x in d then d else d + [x]
  }

  /** `Distinct` keeps the elements in the order they are first seen. */
  lemma {:induction false} DistinctFirstSeen<T(!new)>(s: seq<T>)
    ensures forall i, j :: 0 <= i < j < |Distinct(s)| ==> FirstIndex(s, Distinct(s)[i]) < FirstIndex(s, Distinct(s)[j])
    decreases |s|
  {
    if |s| > 0 {
      var front := s[..|s| - 1];
      var d := Distinct(front);
      var x := s[|s| - 1];
      DistinctFirstSeen(front);
      assert forall i :: 0 <= i < |d| ==> d[i] in d && d[i] in front;
      forall i | 0 <= i < |d| ensures FirstIndex(s, d[i]) == FirstIndex(front, d[i]) && FirstIndex(s, d[i]) < |s| - 1 {
        FirstIndexOfPrefix(s, d[i]);
      }
      if x !in d {
        assert x !in front;
        assert FirstIndex(s, x) == |s| - 1;
        var r := d + [x];
        assert forall i :: 0 <= i < |d| ==> r[i] == d[i];
      }
    }
  }

  /** The first distinct element with property `p` is the first element of
      `s` with it: every element before its first appearance lacks `p`. */
  lemma FirstMatchOfDistinct<T(!new)>(s: seq<T>, p: T -> bool, i: nat)
    requires i < |Distinct(s)| && p(Distinct(s)[i])
    requires forall j :: 0 <= j < i ==> !p(Distinct(s)[j])
    ensures forall j :: 0 <= j < FirstIndex(s, Distinct(s)[i]) ==> !p(s[j])
  {
    var d := Distinct(s);
    var f := FirstIndex(s, d[i]);
    DistinctFirstSeen(s);
    forall j | 0 <= j < f ensures !p(s[j]) {
      assert s[j] in d;
      var i' :| 0 <= i' < |d| && d[i'] == s[j];
      assert FirstIndex(s, d[i']) <= j;
      assert i' < i;
    }
  }

  /** An element first seen in a prefix has the same first index in the whole sequence. */
  lemma FirstIndexOfPrefix<T>(s: seq<T>, x: T)
    requires |s| > 0 && x in s[..|s| - 1]
    ensures FirstIndex(s, x) == FirstIndex(s[..|s| - 1], x)
  {
  }

  /** Index of the last element satisfying `p`: pandas' `sub_df.iloc[-1]`
      after filtering, and the entry a Python dict keeps when later writes
      overwrite earlier ones. */
  function LastMatch<T>(s: seq<T>, p: T -> bool): (r: Option<nat>)
    ensures r.None? <==> forall i :: 0 <= i < |s| ==> !p(s[i])
    ensures r.Some? ==> r.value < |s| && p(s[r.value])
    ensures r.Some? ==> forall i :: r.value < i < |s| ==> !p(s[i])
    decreases |s|
  {
    if |s| == 0 then None
    else if p(s[|s| - 1]) then Some(|s| - 1)
    else LastMatch(s[..|s| - 1], p)
  }

  /** The last match in a prefix is the last match in the whole sequence
      when nothing after the prefix matches. */
  lemma LastMatchPrefix<T>(s: seq<T>, n: nat, p: T -> bool)
    requires n <= |s|
    requires forall i :: n <= i < |s| ==> !p(s[i])
    ensures LastMatch(s, p) == LastMatch(s[..n], p)
  {
    var a := LastMatch(s, p);
    var b := LastMatch(s[..n], p);
    if a.Some? {
      assert a.value < n;
      assert s[..n][a.value] == s[a.value];
    }
    if b.Some? {
      assert s[..n][b.value] == s[b.value];
    }
  }

  /** The elements satisfying `p`, in order: a boolean-mask selection such
      as `df[df['team_tag'] == t]`. */
  function Filter<T>(s: seq<T>, p: T -> bool): (f: seq<T>)
    ensures |f| <= |s|
    ensures forall i :: 0 <= i < |f| ==> p(f[i]) && f[i] in s
    decreases |s|
  {
    if |s| == 0 then []
    else if p(s[|s| - 1]) then Filter(s[..|s| - 1], p) + [s[|s| - 1]]
    else Filter(s[..|s| - 1], p)
  }

  /** The position row `i` takes in the selection: how many earlier rows
      satisfy `p`. */
  function Rank<T>(s: seq<T>, p: T -> bool, i: nat): nat
    requires i <= |s|
  {
    |Filter(s[..i], p)|
  }

  /** Selecting from a prefix selects a prefix. */
  lemma {:induction false} FilterPrefix<T>(s: seq<T>, p: T -> bool, n: nat)
    requires n <= |s|
    ensures |Filter(s[..n], p)| <= |Filter(s, p)|
    ensures Filter(s[..n], p) == Filter(s, p)[..|Filter(s[..n], p)|]
    decreases |s|
  {
    if n < |s| {
      var front := s[..|s| - 1];
      assert front[..n] == s[..n];
      FilterPrefix(front, p, n);
      var l := |Filter(s[..n], p)|;
      assert Filter(s, p)[..|Filter(front, p)|] == Filter(front, p);
      assert Filter(s, p)[..l] == Filter(front, p)[..l];
    } else {
      assert s[..n] == s;
    }
  }

  /** A selected row sits at its rank in the selection, and the selection
      before it is exactly the selection of the rows before it. */
  lemma FilterAtRank<T>(s: seq<T>, p: T -> bool, i: nat)
    requires i < |s| && p(s[i])
    ensures Rank(s, p, i) < |Filter(s, p)|
    ensures Filter(s, p)[Rank(s, p, i)] == s[i]
    ensures Filter(s, p)[..Rank(s, p, i)] == Filter(s[..i], p)
  {
    FilterPrefix(s, p, i + 1);
    assert s[..i + 1][..i] == s[..i];
    assert Filter(s[..i + 1], p) == Filter(s[..i], p) + [s[i]];
  }

  /** The selection keeps every element that satisfies `p`. */
  lemma FilterKeepsAll<T>(s: seq<T>, p: T -> bool)
    ensures forall i :: 0 <= i < |s| && p(s[i]) ==> s[i] in Filter(s, p)
  {
    forall i | 0 <= i < |s| && p(s[i]) ensures s[i] in Filter(s, p) {
      FilterAtRank(s, p, i);
    }
  }

  /** Do two different positions of `s` share a key? */
  predicate HasRepeat<T, K(==)>(s: seq<T>, key: T -> K) {
    exists i, j :: 0 <= i < j < |s| && key(s[i]) == key(s[j])
  }

  /** The first position whose key already occurred earlier, if any. */
  function FindRepeat<T, K(==)>(s: seq<T>, key: T -> K): (r: Option<nat>)
    ensures r.None? <==> !HasRepeat(s, key)
    ensures r.Some? ==> r.value < |s| && exists i :: 0 <= i < r.value && key(s[i]) == key(s[r.value])
    decreases |s|
  {
    if |s| == 0 then None
    else
      var front := s[..|s| - 1];
      var f := FindRepeat(front, key);
      if f.Some? then
        assert forall i :: 0 <= i < |front| ==> front[i] == s[i];
        Some(f.value)
      else if exists i :: 0 <= i < |front| && key(front[i]) == key(s[|s| - 1]) then
        Some(|s| - 1)
      else
        assert forall i :: 0 <= i < |front| ==> front[i] == s[i];
        None
  }

  /** The first position whose element satisfies `p`, if any: where a loop
      that raises on the first offending element stops. */
  function FirstMatch<T>(s: seq<T>, p: T -> bool): (r: Option<nat>)
    ensures r.None? <==> forall i :: 0 <= i < |s| ==> !p(s[i])
    ensures r.Some? ==> r.value < |s| && p(s[r.value])
    ensures r.Some? ==> forall i :: 0 <= i < r.value ==> !p(s[i])
    decreases |s|
  {
    if |s| == 0 then None
    else if p(s[0]) then Some(0)
    else
      var r := FirstMatch(s[1..], p);
      if r.Some? then Some(r.value + 1) else None
  }
}
