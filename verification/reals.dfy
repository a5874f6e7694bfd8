/** Arithmetic helpers over `real`, the model's stand-in for `f32`. */
module Reals {

  /** Division as the model uses it where the divisor is not known to be
      non-zero: IEEE infinities and NaN are not modelled, a zero divisor gives 0. */
  function Div(a: real, b: real): real
  {
    if b == 0.0 then 0.0 else a / b
  }

  /** A non-zero divisor divides exactly. */
  lemma DivMul(a: real, b: real)
    requires b != 0.0
    ensures Div(a, b) * b == a && a / b * b == a
  {
  }

  function Abs(x: real): (r: real)
    ensures r >= 0.0 && (r == x || r == -x)
  {
    if x < 0.0 then -x else x
  }

  function Max(a: real, b: real): (r: real)
    ensures r >= a && r >= b && (r == a || r == b)
  {
    if a < b then b else a
  }

  /** `2.0f32.powi(k)`. */
  function Pow2(k: nat): (r: real)
    ensures r >= 1.0
  {
    if k == 0 then 1.0 else 2.0 * Pow2(k - 1)
  }

  function MinNat(a: nat, b: nat): nat {
    if a < b then a else b
  }

  /** Sum of a sequence of reals. */
  function Sum(xs: seq<real>): real
  {
    if |xs| == 0 then 0.0 else xs[0] + Sum(xs[1..])
  }

  lemma {:induction false} SumAppend(a: seq<real>, b: seq<real>)
    ensures Sum(a + b) == Sum(a) + Sum(b)
  {
    if |a| > 0 {
      assert (a + b)[1..] == a[1..] + b;
      SumAppend(a[1..], b);
    } else {
      assert a + b == b;
    }
  }

  /** Every element multiplied by `k`. */
  function Scale(xs: seq<real>, k: real): (r: seq<real>)
    ensures |r| == |xs| && forall i :: 0 <= i < |xs| ==> r[i] == xs[i] * k
  {
    seq(|xs|, i requires 0 <= i < |xs| => xs[i] * k)
  }

  lemma {:induction false} SumScale(xs: seq<real>, k: real)
    ensures Sum(Scale(xs, k)) == k * Sum(xs)
  {
    if |xs| > 0 {
      SumScale(xs[1..], k);
      forall i | 0 <= i < |xs| - 1
        ensures Scale(xs, k)[1..][i] == Scale(xs[1..], k)[i]
      {
      }
      assert Scale(xs, k)[1..] == Scale(xs[1..], k);
      var h, t := xs[0], Sum(xs[1..]);
      assert k * (h + t) == h * k + k * t;
    }
  }
}
