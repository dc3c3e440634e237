/** Sums over sequences and the decimal rounding done by Number(x.toFixed(n)). */
module Numeric {

  function Sum(s: seq<int>): int
  {
    if s == [] then 0 else Sum(s[..|s| - 1]) + s[|s| - 1]
  }

  function SumReal(s: seq<real>): real
  {
    if s == [] then 0.0 else SumReal(s[..|s| - 1]) + s[|s| - 1]
  }

  lemma {:induction false} SumAppend(s: seq<int>, t: seq<int>)
    ensures Sum(s + t) == Sum(s) + Sum(t)
  {
    if t == [] {
      assert s + t == s;
    } else {
      assert (s + t)[..|s + t| - 1] == s + t[..|t| - 1];
      SumAppend(s, t[..|t| - 1]);
    }
  }

  lemma {:induction false} SumRealNonNeg(s: seq<real>)
    requires forall i :: 0 <= i < |s| ==> s[i] >= 0.0
    ensures SumReal(s) >= 0.0
  {
    if s != [] {
      SumRealNonNeg(s[..|s| - 1]);
    }
  }

  /** Every element is at most the sum when all elements are non-negative, and the sum is at most |s| times any bound. */
  lemma {:induction false} SumRealBounds(s: seq<real>, b: real)
    requires forall i :: 0 <= i < |s| ==> 0.0 <= s[i] <= b
    ensures forall i :: 0 <= i < |s| ==> s[i] <= SumReal(s)
    ensures SumReal(s) <= (|s| as real) * b
  {
    if s != [] {
      var init := s[..|s| - 1];
      SumRealBounds(init, b);
      SumRealNonNeg(init);
      forall i | 0 <= i < |s| ensures s[i] <= SumReal(s) {
        if i < |s| - 1 { assert s[i] == init[i]; }
      }
    }
  }

  /** A sum of values between lo and hi lies between |s| times lo and |s| times hi. */
  lemma {:induction false} SumRealBetween(s: seq<real>, lo: real, hi: real)
    requires forall i :: 0 <= i < |s| ==> lo <= s[i] <= hi
    ensures (|s| as real) * lo <= SumReal(s) <= (|s| as real) * hi
  {
    if s != [] {
      var init := s[..|s| - 1];
      var n := |init| as real;
      SumRealBetween(init, lo, hi);
      assert SumReal(s) == SumReal(init) + s[|s| - 1];
      assert (|s| as real) * lo == n * lo + lo;
      assert (|s| as real) * hi == n * hi + hi;
    }
  }

  function Pow10(n: nat): (r: real)
    ensures r >= 1.0
  {
    if n == 0 then 1.0 else 10.0 * Pow10(n - 1)
  }

  /**
   * Number(x.toFixed(digits)) on exact reals: the magnitude is rounded half up to
   * `digits` decimals and the sign is kept (a negative zero reads back as 0).
   */
  function Round(x: real, digits: nat): real
  {
    RoundAt(x, Pow10(digits))
  }

  /** Rounding half up (on the magnitude) to a multiple of 1/p. */
  function RoundAt(x: real, p: real): real
    requires p >= 1.0
  {
    if x >= 0.0 then HalfUp(x * p) / p else -(HalfUp(-x * p) / p)
  }

  function HalfUp(q: real): real
  {
    (q + 0.5).Floor as real
  }

  /** Rounding keeps the sign and moves a value by at most half a unit of the last decimal. */
  lemma RoundProperties(x: real, digits: nat)
    ensures x >= 0.0 ==> Round(x, digits) >= 0.0
    ensures x <= 0.0 ==> Round(x, digits) <= 0.0
    ensures -0.5 / Pow10(digits) <= Round(x, digits) - x <= 0.5 / Pow10(digits)
  {
    RoundAtProperties(x, Pow10(digits));
  }

  lemma RoundAtProperties(x: real, p: real)
    requires p >= 1.0
    ensures x >= 0.0 ==> RoundAt(x, p) >= 0.0
    ensures x <= 0.0 ==> RoundAt(x, p) <= 0.0
    ensures -0.5 / p <= RoundAt(x, p) - x <= 0.5 / p
  {
    if x >= 0.0 {
      HalfUpBounds(x, p, x * p);
    } else {
      HalfUpBounds(-x, p, -x * p);
    }
  }

  /** floor(q + 1/2) / p lies within 1/(2p) of y when q = y * p. */
  lemma HalfUpBounds(y: real, p: real, q: real)
    requires y >= 0.0 && p >= 1.0 && q == y * p
    ensures HalfUp(q) / p >= 0.0
    ensures -0.5 / p <= HalfUp(q) / p - y <= 0.5 / p
  {
    var f := HalfUp(q);
    assert q >= 0.0;
    assert q - 0.5 < f <= q + 0.5;
    assert f >= 0.0;
    assert y == q / p;
    SubDiv(f, q, p);
    assert -0.5 <= f - q <= 0.5;
    DivMono(-0.5, f - q, p);
    DivMono(f - q, 0.5, p);
  }

  lemma SubDiv(a: real, b: real, p: real)
    requires p > 0.0
    ensures a / p - b / p == (a - b) / p
  {
  }

  lemma DivMono(a: real, b: real, p: real)
    requires p > 0.0 && a <= b
    ensures a / p <= b / p
  {
  }

  /** A non-negative value rounds to zero exactly when it is below half a unit of the last decimal. */
  lemma RoundZeroIff(x: real, digits: nat)
    requires x >= 0.0
    ensures (Round(x, digits) == 0.0) == (x * Pow10(digits) < 0.5)
  {
    RoundAtZeroIff(x, Pow10(digits));
    assert Round(x, digits) == RoundAt(x, Pow10(digits));
  }

  lemma RoundAtZeroIff(x: real, p: real)
    requires x >= 0.0 && p >= 1.0
    ensures (RoundAt(x, p) == 0.0) == (x * p < 0.5)
  {
    FloorZeroIff(x * p, p);
  }

  lemma FloorZeroIff(q: real, p: real)
    requires q >= 0.0 && p >= 1.0
    ensures (HalfUp(q) / p == 0.0) == (q < 0.5)
  {
    var f := HalfUp(q);
    if q < 0.5 {
      assert f == 0.0;
    } else {
      assert f >= 1.0;
      DivMono(1.0, f, p);
      assert 1.0 / p > 0.0;
    }
  }
}
