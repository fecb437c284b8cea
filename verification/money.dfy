/** Monetary arithmetic on exact decimals. The system stores IEEE doubles and
    formats them with `parseFloat(x.toFixed(2))`; here amounts are `real`s
    and that formatting step is `Round2`, rounding to the nearest cent with
    exact halves going away from zero (what `toFixed` does on a decimal that
    is exactly representable). The 0.01 tolerance comparisons are kept as
    literal thresholds where they are used. */
module Money {

  function Abs(x: real): (r: real)
    ensures r >= 0.0 && (r == x || r == -x)
  {
    if x < 0.0 then -x else x
  }

  function Min(x: real, y: real): (r: real)
    ensures r <= x && r <= y && (r == x || r == y)
  {
    if x <= y then x else y
  }

  /** Rounds a non-negative amount to the nearest cent, halves upward. */
  function HalfUpCents(y: real): (r: real)
    requires y >= 0.0
    ensures r >= 0.0
    ensures y - 0.005 <= r <= y + 0.005
    ensures r * 100.0 == (r * 100.0).Floor as real
  {
    var n := (y * 100.0 + 0.5).Floor;
    assert n as real <= y * 100.0 + 0.5 < n as real + 1.0;
    CentsOf(n);
    n as real / 100.0
  }

  /** `n` cents, as an amount, is a whole number of cents. */
  lemma CentsOf(n: int)
    ensures n as real / 100.0 * 100.0 == n as real
    ensures (n as real / 100.0 * 100.0).Floor == n
  {
  }

  /** `parseFloat(x.toFixed(2))` on an exact decimal. */
  function Round2(x: real): (r: real)
    ensures Abs(r - x) <= 0.005
    ensures x >= 0.0 ==> r >= 0.0
    ensures x <= 0.0 ==> r <= 0.0
    ensures (r * 100.0).Floor as real == r * 100.0
  {
    if x >= 0.0 then HalfUpCents(x)
    else
      var h := HalfUpCents(-x);
      NegatedCents(h);
      -h
  }

  /** A whole number of cents stays one when negated. */
  lemma NegatedCents(h: real)
    requires h * 100.0 == (h * 100.0).Floor as real
    ensures (-h * 100.0).Floor as real == -h * 100.0
  {
    var c := (h * 100.0).Floor;
    assert -h * 100.0 == (-c) as real;
  }

  /** A settled amount above the 0.01 threshold never rounds below one cent. */
  lemma Round2AboveCent(x: real)
    requires x > 0.01
    ensures Round2(x) >= 0.01
  {
    var n := (x * 100.0 + 0.5).Floor;
    assert x * 100.0 + 0.5 > 1.5;
    assert n >= 1;
  }

  /** Rounding a whole number of cents changes nothing. */
  lemma Round2Cents(c: int)
    ensures Round2(c as real / 100.0) == c as real / 100.0
  {
    var x := c as real / 100.0;
    if c >= 0 {
      assert (x * 100.0 + 0.5).Floor == c;
    } else {
      assert ((-x) * 100.0 + 0.5).Floor == -c;
    }
  }

  /** The running total a left-to-right `forEach`/`+=` produces. */
  function Sum(xs: seq<real>): real {
    if xs == [] then 0.0 else Sum(xs[..|xs| - 1]) + xs[|xs| - 1]
  }

  lemma {:induction false} SumConstant(xs: seq<real>, c: real)
    requires forall i :: 0 <= i < |xs| ==> xs[i] == c
    ensures Sum(xs) == |xs| as real * c
  {
    if xs != [] {
      SumConstant(xs[..|xs| - 1], c);
    }
  }

  lemma {:induction false} SumScaled(xs: seq<real>, ys: seq<real>, c: real)
    requires |xs| == |ys|
    requires forall i :: 0 <= i < |xs| ==> ys[i] == c * xs[i]
    ensures Sum(ys) == c * Sum(xs)
  {
    if xs != [] {
      var n := |xs| - 1;
      SumScaled(xs[..n], ys[..n], c);
    }
  }

  /** Rounding each of n terms to the cent moves their total by at most n half-cents. */
  lemma {:induction false} SumRoundedNear(xs: seq<real>, ys: seq<real>)
    requires |xs| == |ys|
    requires forall i :: 0 <= i < |xs| ==> ys[i] == Round2(xs[i])
    ensures Abs(Sum(ys) - Sum(xs)) <= 0.005 * |xs| as real
  {
    if xs != [] {
      var n := |xs| - 1;
      SumRoundedNear(xs[..n], ys[..n]);
      assert Abs(ys[n] - xs[n]) <= 0.005;
    }
  }

  /** Terms within `slack` of a target stay within `slack` plus n half-cents once rounded. */
  lemma RoundedSumNearTarget(xs: seq<real>, ys: seq<real>, target: real, slack: real)
    requires |xs| == |ys|
    requires forall i :: 0 <= i < |xs| ==> ys[i] == Round2(xs[i])
    requires Abs(Sum(xs) - target) <= slack
    ensures Abs(Sum(ys) - target) <= slack + 0.005 * |xs| as real
  {
    SumRoundedNear(xs, ys);
  }

  lemma MulDivCancel(n: real, x: real)
    requires n != 0.0
    ensures n * (x / n) == x
  {
  }
}
