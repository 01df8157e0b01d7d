/**
  Exact-arithmetic stand-ins for the Python numerics the aggregator relies
  on: `statistics.mean` and `statistics.median`, `round()` (half to even),
  `round(x, n)`, `int()` truncation, `str()` of an integer, and the Home
  Assistant Celsius-to-Fahrenheit conversion. Floats are modelled as exact
  reals.
 */
module Numbers {

  function Sum(s: seq<real>): real {
    if |s| == 0 then 0.0 else s[0] + Sum(s[1..])
  }

  function Min(s: seq<real>): (m: real)
    requires |s| > 0
    ensures m in s
    ensures forall i :: 0 <= i < |s| ==> m <= s[i]
  {
    if |s| == 1 then s[0]
    else
      var rest := Min(s[1..]);
      assert forall i :: 1 <= i < |s| ==> s[i] == s[1..][i - 1];
      if s[0] <= rest then s[0] else rest
  }

  function Max(s: seq<real>): (m: real)
    requires |s| > 0
    ensures m in s
    ensures forall i :: 0 <= i < |s| ==> s[i] <= m
  {
    if |s| == 1 then s[0]
    else
      var rest := Max(s[1..]);
      assert forall i :: 1 <= i < |s| ==> s[i] == s[1..][i - 1];
      if rest <= s[0] then s[0] else rest
  }

  /** Every element of `s` lies in `[lo, hi]`. */
  predicate Within(s: seq<real>, lo: real, hi: real) {
    forall i :: 0 <= i < |s| ==> lo <= s[i] <= hi
  }

  lemma {:induction false} SumWithin(s: seq<real>, lo: real, hi: real)
    requires Within(s, lo, hi)
    ensures |s| as real * lo <= Sum(s) <= |s| as real * hi
  {
    if |s| > 0 {
      assert Within(s[1..], lo, hi) by {
        forall i | 0 <= i < |s| - 1
          ensures lo <= s[1..][i] <= hi
        {
          assert s[1..][i] == s[i + 1];
        }
      }
      SumWithin(s[1..], lo, hi);
    }
  }

  /** `statistics.mean`: the exact arithmetic mean, between the smallest and largest sample. */
  function Mean(s: seq<real>): (m: real)
    requires |s| > 0
    ensures Min(s) <= m <= Max(s)
  {
    MeanBetweenExtremes(s);
    Sum(s) / |s| as real
  }

  lemma MeanBetweenExtremes(s: seq<real>)
    requires |s| > 0
    ensures Min(s) <= Sum(s) / |s| as real <= Max(s)
  {
    SumDivWithin(s, Min(s), Max(s));
  }

  lemma SumDivWithin(s: seq<real>, lo: real, hi: real)
    requires |s| > 0
    requires Within(s, lo, hi)
    ensures lo <= Sum(s) / |s| as real <= hi
  {
    SumWithin(s, lo, hi);
    DivideBounds(Sum(s), |s| as real, lo, hi);
  }

  lemma DivideBounds(total: real, n: real, lo: real, hi: real)
    requires n > 0.0
    requires n * lo <= total <= n * hi
    ensures lo <= total / n <= hi
  {
    assert total / n * n == total;
  }

  lemma MeanWithin(s: seq<real>, lo: real, hi: real)
    requires |s| > 0
    requires Within(s, lo, hi)
    ensures lo <= Mean(s) <= hi
  {
    SumDivWithin(s, lo, hi);
  }

  predicate SortedAsc(s: seq<real>) {
    forall i, j :: 0 <= i < j < |s| ==> s[i] <= s[j]
  }

  function Insert(x: real, s: seq<real>): (r: seq<real>)
    requires SortedAsc(s)
    ensures SortedAsc(r)
    ensures multiset(r) == multiset(s) + multiset{x}
  {
    if |s| == 0 then [x]
    else if x <= s[0] then [x] + s
    else
      var tail := Insert(x, s[1..]);
      assert s == [s[0]] + s[1..];
      BoundedByMultiset(tail, s[1..], x, s[0]);
      [s[0]] + tail
  }

  /** A permutation of bounded elements plus a bounded `x` is bounded the same way. */
  lemma BoundedByMultiset(r: seq<real>, s: seq<real>, x: real, lo: real)
    requires multiset(r) == multiset(s) + multiset{x}
    requires lo <= x && forall i :: 0 <= i < |s| ==> lo <= s[i]
    ensures forall k :: 0 <= k < |r| ==> lo <= r[k]
  {
    forall k | 0 <= k < |r|
      ensures lo <= r[k]
    {
      assert r[k] in multiset(r);
      assert r[k] in multiset(s) || r[k] == x;
    }
  }

  /** `sorted(data)`: an ascending permutation of the samples. */
  function Sort(s: seq<real>): (r: seq<real>)
    ensures SortedAsc(r)
    ensures multiset(r) == multiset(s)
  {
    if |s| == 0 then []
    else
      assert s == [s[0]] + s[1..];
      Insert(s[0], Sort(s[1..]))
  }

  lemma HeadIsLeast(a: seq<real>, x: real)
    requires SortedAsc(a) && x in a
    ensures a[0] <= x
  {
    var j :| 0 <= j < |a| && a[j] == x;
    assert j == 0 || a[0] <= a[j];
  }
  lemma MultisetTail(a: seq<real>)
    requires |a| > 0
    ensures multiset(a[1..]) == multiset(a) - multiset{a[0]}
  {
    assert a == [a[0]] + a[1..];
    assert multiset(a) == multiset{a[0]} + multiset(a[1..]);
  }
  lemma SortedTail(a: seq<real>)
    requires |a| > 0 && SortedAsc(a)
    ensures SortedAsc(a[1..])
  {
    forall i, j | 0 <= i < j < |a| - 1
      ensures a[1..][i] <= a[1..][j]
    {
      assert a[1..][i] == a[i + 1] && a[1..][j] == a[j + 1];
    }
  }
  /** An ascending sequence is determined by its multiset of elements. */
  lemma {:induction false} SortedUnique(a: seq<real>, b: seq<real>)
    requires SortedAsc(a) && SortedAsc(b)
    requires multiset(a) == multiset(b)
    ensures a == b
  {
    assert |a| == |multiset(a)| == |multiset(b)| == |b|;
    if |a| > 0 {
      assert a[0] in multiset(b) && b[0] in multiset(a);
      HeadIsLeast(a, b[0]);
      HeadIsLeast(b, a[0]);
      MultisetTail(a);
      MultisetTail(b);
      SortedTail(a);
      SortedTail(b);
      SortedUnique(a[1..], b[1..]);
      assert a[0] == b[0];
      forall k | 0 <= k < |a|
        ensures a[k] == b[k]
      {
        if k > 0 {
          assert a[k] == a[1..][k - 1] && b[k] == b[1..][k - 1];
        }
      }
    }
  }

  /** `statistics.median`: middle element of the sorted samples, or the mean of the two middle ones. */
  function Median(s: seq<real>): (m: real)
    requires |s| > 0
    ensures Min(s) <= m <= Max(s)
  {
    var t := Sort(s);
    assert |t| == |multiset(t)| == |multiset(s)| == |s|;
    assert forall k :: 0 <= k < |t| ==> Min(s) <= t[k] <= Max(s) by {
      forall k | 0 <= k < |t|
        ensures Min(s) <= t[k] <= Max(s)
      {
        assert t[k] in multiset(t);
        assert t[k] in s;
      }
    }
    Middle(t)
  }

  /** The middle element of a non-empty sequence, or the mean of the two middle ones. */
  function Middle(t: seq<real>): (m: real)
    requires |t| > 0
    ensures exists i :: 0 <= i < |t| && t[i] <= m
    ensures exists j :: 0 <= j < |t| && m <= t[j]
  {
    var n := |t|;
    if n % 2 == 1 then t[n / 2] else (t[n / 2 - 1] + t[n / 2]) / 2.0
  }

  /** The median does not depend on the order in which the samples arrived. */
  lemma MedianOrderIndependent(a: seq<real>, b: seq<real>)
    requires |a| > 0
    requires multiset(a) == multiset(b)
    ensures |b| > 0
    ensures Median(a) == Median(b)
  {
    assert |b| == |multiset(b)| == |multiset(a)| == |a|;
    SortPermutationsAgree(a, b);
  }

  /** Sorting forgets the order of the input. */
  lemma SortPermutationsAgree(a: seq<real>, b: seq<real>)
    requires multiset(a) == multiset(b)
    ensures Sort(a) == Sort(b)
  {
    SortedUnique(Sort(a), Sort(b));
  }

  lemma MedianWithin(s: seq<real>, lo: real, hi: real)
    requires |s| > 0
    requires Within(s, lo, hi)
    ensures lo <= Median(s) <= hi
  {
    assert Min(s) in s && Max(s) in s;
  }

  /** Python's `round(x)` on a float: the nearest integer, ties to the even one. */
  function RoundHalfEven(x: real): (r: int)
    ensures -0.5 <= r as real - x <= 0.5
    ensures (r as real - x == 0.5 || x - r as real == 0.5) ==> r % 2 == 0
  {
    var f := x.Floor;
    var frac := x - f as real;
    if frac < 0.5 then f
    else if frac > 0.5 then f + 1
    else if f % 2 == 0 then f
    else f + 1
  }

  /** Rounding a value between two integers stays between them. */
  lemma RoundWithin(x: real, lo: int, hi: int)
    requires lo as real <= x <= hi as real
    ensures lo <= RoundHalfEven(x) <= hi
  {
  }

  function Pow10(k: nat): (r: nat)
    ensures r >= 1
  {
    if k == 0 then 1 else 10 * Pow10(k - 1)
  }

  /** Size of one unit in the `n`-th decimal place, inverted: `10^n`. */
  function DecimalScale(n: int): (s: real)
    ensures s > 0.0
  {
    if n >= 0 then Pow10(n) as real else 1.0 / Pow10(-n) as real
  }

  /** `r` is within half a unit of the `n`-th decimal place of `x`. */
  predicate CloseAtPlaces(r: real, x: real, n: int) {
    -0.5 <= (r - x) * DecimalScale(n) <= 0.5
  }

  /** `r` has no digits beyond the `n`-th decimal place. */
  predicate HasPlaces(r: real, n: int) {
    (r * DecimalScale(n)).Floor as real == r * DecimalScale(n)
  }

  /** Python's `round(x, n)`: half-to-even rounding at the `n`-th decimal place. */
  function RoundTo(x: real, n: int): (r: real)
    ensures CloseAtPlaces(r, x, n)
    ensures HasPlaces(r, n)
  {
    var scale := DecimalScale(n);
    var k := RoundHalfEven(x * scale);
    ScaleBack(k as real, x, scale);
    WholeUnits(k, n);
    k as real / scale
  }

  /** A whole number of units of the `n`-th decimal place has no further digits. */
  lemma WholeUnits(k: int, n: int)
    ensures HasPlaces(k as real / DecimalScale(n), n)
  {
    var s := DecimalScale(n);
    assert (k as real / s) * s == k as real;
  }

  lemma ScaleBack(k: real, x: real, scale: real)
    requires scale > 0.0
    ensures (k / scale - x) * scale == k - x * scale
    ensures k / scale * scale == k
  {
  }

  /** Python's `int(x)` on a float: truncation toward zero. */
  function Trunc(x: real): (r: int)
    ensures x >= 0.0 ==> r as real <= x < r as real + 1.0
    ensures x < 0.0 ==> r as real - 1.0 < x <= r as real
  {
    if x >= 0.0 then x.Floor else -((-x).Floor)
  }

  /** Home Assistant's `celsius_to_fahrenheit`. */
  function CelsiusToFahrenheit(c: real): real {
    c * 1.8 + 32.0
  }

  lemma CelsiusToFahrenheitMonotone(a: real, b: real)
    requires a <= b
    ensures CelsiusToFahrenheit(a) <= CelsiusToFahrenheit(b)
  {
  }

  const DecimalDigits: string := "0123456789"

  function NatDigits(n: nat): (s: string)
    ensures |s| > 0
    ensures forall i :: 0 <= i < |s| ==> '0' <= s[i] <= '9'
  {
    if n < 10 then [DecimalDigits[n]] else NatDigits(n / 10) + [DecimalDigits[n % 10]]
  }

  /** Python's `str()` of an integer. */
  function DecimalString(n: int): (s: string)
    ensures |s| > 0
  {
    if n < 0 then "-" + NatDigits(-n) else NatDigits(n)
  }

  function ParseDecimal(s: string): nat
    requires forall i :: 0 <= i < |s| ==> '0' <= s[i] <= '9'
  {
    if |s| == 0 then 0
    else 10 * ParseDecimal(s[..|s| - 1]) + (s[|s| - 1] as int - '0' as int)
  }

  /** The decimal rendering of a natural number reads back as that number. */
  lemma {:induction false} NatDigitsRoundTrip(n: nat)
    ensures ParseDecimal(NatDigits(n)) == n
  {
    var s := NatDigits(n);
    if n >= 10 {
      NatDigitsRoundTrip(n / 10);
      assert s[..|s| - 1] == NatDigits(n / 10);
    }
  }
}
