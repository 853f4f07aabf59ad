/** The few pieces of Python's built-in semantics that the modelled code relies on:
    `None`, the slice `xs[-n:]`, `int()` of a float, `min`/`max` clamping and `sum`. */
module PyLib {

  datatype Option<+T> = None | Some(value: T)

  /** Python's `xs[-n:]`. A negative start counts from the end and is cut off at 0; a
      non-negative start is cut off at the length. So `n == 0` gives `xs[0:]`, the whole list,
      and a negative `n` drops the first `-n` elements. */
  function SliceFromNeg<T>(xs: seq<T>, n: int): seq<T>
  {
    var start := -n;
    if start < 0 then xs[(if |xs| + start < 0 then 0 else |xs| + start)..]
    else xs[(if start < |xs| then start else |xs|)..]
  }

  /** `xs[-n:]` is always a suffix of `xs`; which suffix depends only on the sign and size of n. */
  lemma SliceFromNegCases<T>(xs: seq<T>, n: int)
    ensures 0 < n <= |xs| ==> SliceFromNeg(xs, n) == xs[|xs| - n..] && |SliceFromNeg(xs, n)| == n
    ensures n >= |xs| ==> SliceFromNeg(xs, n) == xs
    ensures n == 0 ==> SliceFromNeg(xs, n) == xs
    ensures n < 0 ==> SliceFromNeg(xs, n) == if -n <= |xs| then xs[-n..] else []
    ensures exists k :: 0 <= k <= |xs| && SliceFromNeg(xs, n) == xs[k..]
  {
    if 0 < n <= |xs| {
      assert SliceFromNeg(xs, n) == xs[|xs| - n..];
    } else if n >= |xs| {
      assert SliceFromNeg(xs, n) == xs[0..];
    } else if n == 0 {
      assert SliceFromNeg(xs, n) == xs[0..];
    } else if -n <= |xs| {
      assert SliceFromNeg(xs, n) == xs[-n..];
    } else {
      assert SliceFromNeg(xs, n) == xs[|xs|..];
    }
  }

  /** The elements of `a + b` past `a` are those of `b`. */
  lemma AppendIndex<T>(a: seq<T>, b: seq<T>)
    ensures forall i :: 0 <= i < |b| ==> (a + b)[|a| + i] == b[i]
    ensures forall i :: 0 <= i < |a| ==> (a + b)[i] == a[i]
  {
  }

  /** A common prefix cancels. */
  lemma PrefixCancel<T>(a: seq<T>, r: seq<T>, c: seq<T>)
    ensures a + r == a + c ==> r == c
  {
    if a + r == a + c {
      assert (a + r)[|a|..] == r;
      assert (a + c)[|a|..] == c;
    }
  }

  /** Extending a prefix by one element. */
  lemma PrefixSnoc<T>(s: seq<T>, i: int)
    requires 0 <= i < |s|
    ensures s[..i + 1] == s[..i] + [s[i]]
  {
  }

  /** Python's `int(x)` for a float: truncation toward zero (Dafny's `Floor` rounds down). */
  function Trunc(x: real): (r: int)
    ensures x >= 0.0 ==> r as real <= x < r as real + 1.0
    ensures x < 0.0 ==> r as real - 1.0 < x <= r as real
    ensures x >= 0.0 ==> r >= 0
    ensures x <= 0.0 ==> r <= 0
  {
    if x >= 0.0 then x.Floor else -((-x).Floor)
  }

  /** `max(min(x, hi), lo)`. */
  function ClampInt(x: int, lo: int, hi: int): (r: int)
    requires lo <= hi
    ensures lo <= r <= hi
    ensures lo <= x <= hi ==> r == x
    ensures x > hi ==> r == hi
    ensures x < lo ==> r == lo
  {
    var m := if x < hi then x else hi;
    if m > lo then m else lo
  }

  function SumReals(xs: seq<real>): real
  {
    if xs == [] then 0.0 else SumReals(xs[..|xs| - 1]) + xs[|xs| - 1]
  }

  function SumInts(xs: seq<int>): int
  {
    if xs == [] then 0 else SumInts(xs[..|xs| - 1]) + xs[|xs| - 1]
  }

  /** `np.mean` over a non-empty list of reals. */
  function Mean(xs: seq<real>): real
    requires |xs| > 0
  {
    SumReals(xs) / (|xs| as real)
  }

  /** The decimal digit of `d`. */
  function DigitChar(d: int): (c: char)
    requires 0 <= d < 10
    ensures '0' <= c <= '9' && (c - '0') as int == d
  {
    ('0' as int + d) as char
  }

  /** `str(n)` for a natural number: its decimal digits, without leading zeros. */
  function NatToString(n: nat): (s: string)
    ensures |s| >= 1 && AllDigits(s)
    ensures |s| > 1 ==> s[0] != '0'
  {
    if n < 10 then [DigitChar(n)] else NatToString(n / 10) + [DigitChar(n % 10)]
  }

  /** `str(i)` for an integer: a minus sign for the negative ones. */
  function IntToString(i: int): string
  {
    if i < 0 then "-" + NatToString(-i) else NatToString(i)
  }

  /** Every character is a decimal digit. */
  predicate AllDigits(s: string)
  {
    forall i :: 0 <= i < |s| ==> '0' <= s[i] <= '9'
  }

  /** The value of a string of decimal digits. */
  function ParseDigits(s: string): int
    requires AllDigits(s)
  {
    if s == [] then 0 else ParseDigits(s[..|s| - 1]) * 10 + (s[|s| - 1] - '0') as int
  }

  /** The value of `str(i)` read back in: the sign and the digits give `i` again. */
  function ParseInt(s: string): Option<int>
  {
    if |s| > 1 && s[0] == '-' && AllDigits(s[1..]) then
      Some(-ParseDigits(s[1..]))
    else if |s| > 0 && AllDigits(s) then
      Some(ParseDigits(s))
    else None
  }

  lemma {:induction false} NatToStringRoundTrip(n: nat)
    ensures ParseDigits(NatToString(n)) == n
  {
    if n >= 10 {
      NatToStringRoundTrip(n / 10);
      var s := NatToString(n);
      assert s[..|s| - 1] == NatToString(n / 10);
    }
  }

  /** `str` loses nothing: reading the text of an integer back gives the integer. */
  lemma {:induction false} IntToStringRoundTrip(i: int)
    ensures ParseInt(IntToString(i)) == Some(i)
  {
    if i < 0 {
      var d := NatToString(-i);
      NatToStringRoundTrip(-i);
      ParseNegative(d);
      assert IntToString(i) == "-" + d;
    } else {
      var d := NatToString(i);
      NatToStringRoundTrip(i);
      ParseNonNegative(d);
      assert IntToString(i) == d;
    }
  }

  lemma ParseNegative(d: string)
    requires |d| >= 1 && AllDigits(d)
    ensures ParseInt("-" + d) == Some(-ParseDigits(d))
  {
    assert ("-" + d)[1..] == d;
  }

  lemma ParseNonNegative(d: string)
    requires |d| >= 1 && AllDigits(d)
    ensures ParseInt(d) == Some(ParseDigits(d))
  {
    assert d[0] != '-';
  }

  /** `s.startswith(prefix)`. */
  predicate StartsWith(s: string, prefix: string)
  {
    |prefix| <= |s| && s[..|prefix|] == prefix
  }
}
