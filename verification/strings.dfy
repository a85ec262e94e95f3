/** Python's ordering of `str` values and the decimal formatting used to build
    date strings (`str(n)` and `str.zfill`). */
module Strings {

  /** Python's `a < b` on strings: lexicographic by code point, a proper
      prefix being smaller. */
  predicate StrLt(a: string, b: string)
    decreases |a|
  {
    if |b| == 0 then false
    else if |a| == 0 then true
    else if a[0] != b[0] then a[0] < b[0]
    else StrLt(a[1..], b[1..])
  }

  /** Python's `a <= b` on strings. */
  predicate StrLe(a: string, b: string) {
    a == b || StrLt(a, b)
  }

  lemma {:induction false} StrLtIrreflexive(a: string)
    ensures !StrLt(a, a)
    decreases |a|
  {
    if |a| > 0 {
      StrLtIrreflexive(a[1..]);
    }
  }

  lemma {:induction false} StrLtAsymmetric(a: string, b: string)
    ensures !(StrLt(a, b) && StrLt(b, a))
    decreases |a|
  {
    if |a| > 0 && |b| > 0 && a[0] == b[0] {
      StrLtAsymmetric(a[1..], b[1..]);
    }
  }

  lemma {:induction false} StrLtTransitive(a: string, b: string, c: string)
    requires StrLt(a, b) && StrLt(b, c)
    ensures StrLt(a, c)
    decreases |a|
  {
    if |a| > 0 && a[0] == b[0] && b[0] == c[0] {
      StrLtTransitive(a[1..], b[1..], c[1..]);
    }
  }

  /** Any two strings are equal or ordered one way. */
  lemma {:induction false} StrLtTotal(a: string, b: string)
    ensures a == b || StrLt(a, b) || StrLt(b, a)
    decreases |a|
  {
    if |a| > 0 && |b| > 0 && a[0] == b[0] {
      StrLtTotal(a[1..], b[1..]);
      if a[1..] == b[1..] {
        assert a == [a[0]] + a[1..] && b == [b[0]] + b[1..];
      }
    }
  }

  /** Comparing two concatenations whose first parts have equal length
      compares the first parts, then the second parts. */
  lemma {:induction false} StrLtConcat(p: string, x: string, q: string, y: string)
    requires |p| == |q|
    ensures StrLt(p + x, q + y) <==> StrLt(p, q) || (p == q && StrLt(x, y))
    decreases |p|
  {
    if |p| > 0 {
      assert (p + x)[0] == p[0] && (q + y)[0] == q[0];
      assert (p + x)[1..] == p[1..] + x && (q + y)[1..] == q[1..] + y;
      StrLtConcat(p[1..], x, q[1..], y);
      if p[0] == q[0] && p[1..] == q[1..] {
        assert p == [p[0]] + p[1..] && q == [q[0]] + q[1..];
      }
    } else {
      assert p + x == x && q + y == y;
    }
  }

  /** The decimal digit character for `d`. */
  function Digit(d: nat): (c: char)
    requires d < 10
    ensures '0' <= c <= '9'
  {
    ('0' as int + d) as char
  }

  /** Python's `str(n)` for a non-negative integer: no leading zeros. */
  function NatToString(n: nat): (s: string)
    ensures 1 <= |s|
    decreases n
  {
    if n < 10 then [Digit(n)] else NatToString(n / 10) + [Digit(n % 10)]
  }

  /** `k` copies of the character '0'. */
  function Zeros(k: nat): (s: string)
    ensures |s| == k && forall i :: 0 <= i < k ==> s[i] == '0'
  {
    seq(k, _ => '0')
  }

  /** Python's `s.zfill(w)` for a string without a sign: left-pad with '0'
      up to width `w`, leaving longer strings unchanged. */
  function ZFill(s: string, w: nat): (r: string)
    ensures |r| == if |s| >= w then |s| else w
    ensures r[|r| - |s|..] == s
    ensures forall i :: 0 <= i < |r| - |s| ==> r[i] == '0'
  {
    if |s| >= w then s else Zeros(w - |s|) + s
  }

  function Pow10(w: nat): (p: nat)
    ensures p >= 1
  {
    if w == 0 then 1 else 10 * Pow10(w - 1)
  }

  /** The last `w` decimal digits of `n`, most significant first: the
      fixed-width reading of a zero-padded number. */
  function FixedDigits(n: nat, w: nat): (s: string)
    ensures |s| == w
    decreases w
  {
    if w == 0 then [] else FixedDigits(n / 10, w - 1) + [Digit(n % 10)]
  }

  lemma {:induction false} FixedDigitsOfZero(w: nat)
    ensures FixedDigits(0, w) == Zeros(w)
  {
    if w > 0 {
      FixedDigitsOfZero(w - 1);
    }
  }

  /** A number below `10^w` prints with at most `w` digits, and padding it to
      width `w` gives its fixed-width digits. */
  lemma {:induction false} ZFillIsFixedDigits(n: nat, w: nat)
    requires 1 <= w && n < Pow10(w)
    ensures ZFill(NatToString(n), w) == FixedDigits(n, w)
    decreases w
  {
    if n < 10 {
      FixedDigitsOfZero(w - 1);
      assert FixedDigits(n, w) == Zeros(w - 1) + [Digit(n)];
    } else {
      assert n / 10 < Pow10(w - 1) && 2 <= w;
      ZFillIsFixedDigits(n / 10, w - 1);
      var s := NatToString(n / 10);
      assert NatToString(n) == s + [Digit(n % 10)];
      assert |s| <= w - 1;
      assert ZFill(NatToString(n), w) == ZFill(s, w - 1) + [Digit(n % 10)];
    }
  }

  /** Fixed-width digit strings compare as strings exactly as the numbers compare. */
  lemma {:induction false} FixedDigitsOrder(n: nat, m: nat, w: nat)
    requires n < Pow10(w) && m < Pow10(w)
    ensures StrLt(FixedDigits(n, w), FixedDigits(m, w)) <==> n < m
    ensures FixedDigits(n, w) == FixedDigits(m, w) <==> n == m
    decreases w
  {
    if w == 0 {
      StrLtIrreflexive([]);
    } else {
      FixedDigitsOrder(n / 10, m / 10, w - 1);
      var p, q := FixedDigits(n / 10, w - 1), FixedDigits(m / 10, w - 1);
      StrLtConcat(p, [Digit(n % 10)], q, [Digit(m % 10)]);
      var a, b := FixedDigits(n, w), FixedDigits(m, w);
      if a == b {
        assert a[..w - 1] == p && b[..w - 1] == q;
        assert a[w - 1] == Digit(n % 10) && b[w - 1] == Digit(m % 10);
      }
    }
  }
}
