/**
 * Exact-real stand-ins for the double-precision arithmetic of the pipeline.
 * A double is either finite or one of numpy's three special values; the few
 * operations whose special-value behaviour the pipeline relies on (clipping,
 * division by zero, adding a finite offset) are written out here.
 */
module Numerics {

  /** A double as numpy and pandas see it. */
  datatype Float = Finite(v: real) | PosInf | NegInf | NaN

  /** `np.clip(x, lo, hi)` for a finite `x`. */
  function Clip(x: real, lo: real, hi: real): (r: real)
    requires lo <= hi
    ensures lo <= r <= hi
    ensures lo <= x <= hi ==> r == x
    ensures x <= lo ==> r == lo
    ensures hi <= x ==> r == hi
  {
    if x < lo then lo else if x > hi then hi else x
  }

  /** `np.clip` of a double: the infinities saturate at the bounds, NaN stays NaN. */
  function ClipF(x: Float, lo: real, hi: real): (r: Float)
    requires lo <= hi
    ensures r.NaN? <==> x.NaN?
    ensures r.Finite? <==> !x.NaN?
    ensures r.Finite? ==> lo <= r.v <= hi
    ensures x.Finite? ==> r == Finite(Clip(x.v, lo, hi))
    ensures x.PosInf? ==> r == Finite(hi)
    ensures x.NegInf? ==> r == Finite(lo)
  {
    match x
    case Finite(v) => Finite(Clip(v, lo, hi))
    case PosInf => Finite(hi)
    case NegInf => Finite(lo)
    case NaN => NaN
  }

  /**
   * Element-wise numpy division of two finite doubles: a zero divisor yields
   * an infinity of the dividend's sign, or NaN for 0/0, instead of an error.
   */
  function Divide(a: real, b: real): (r: Float)
    ensures r.Finite? <==> b != 0.0
    ensures r.Finite? ==> r.v * b == a
    ensures r.NaN? <==> b == 0.0 && a == 0.0
    ensures r.PosInf? <==> b == 0.0 && a > 0.0
    ensures r.NegInf? <==> b == 0.0 && a < 0.0
  {
    if b != 0.0 then Finite(a / b)
    else if a > 0.0 then PosInf
    else if a < 0.0 then NegInf
    else NaN
  }

  /** A double plus a finite offset: the infinities and NaN absorb it. */
  function Plus(x: Float, d: real): (r: Float)
    ensures r.Finite? <==> x.Finite?
    ensures x.Finite? ==> r.v - d == x.v
    ensures !x.Finite? ==> r == x
  {
    if x.Finite? then Finite(x.v + d) else x
  }

  /** `np.clip(x, 0, None)`. */
  function Max0(x: real): (r: real)
    ensures r >= 0.0 && r >= x
    ensures r == x || r == 0.0
  {
    if x < 0.0 then 0.0 else x
  }

  /** `b ** k` for a natural exponent. */
  function Pow(b: real, k: nat): real
  {
    if k == 0 then 1.0 else b * Pow(b, k - 1)
  }

  lemma ProductPositive(x: real, y: real)
    requires x > 0.0 && y > 0.0
    ensures x * y > 0.0
  {
  }

  /** Multiplying by a positive factor keeps a strict order. */
  lemma ScaledLess(c: real, a: real, b: real)
    requires c > 0.0 && a < b
    ensures c * a < c * b
  {
    ProductPositive(c, b - a);
    assert c * b - c * a == c * (b - a);
  }

  lemma ScaledAtMost(c: real, a: real, b: real)
    requires c > 0.0 && a <= b
    ensures c * a <= c * b
  {
    if a < b {
      ScaledLess(c, a, b);
    }
  }

  lemma {:induction false} PowPositive(b: real, k: nat)
    requires b > 0.0
    ensures Pow(b, k) > 0.0
  {
    if k > 0 {
      PowPositive(b, k - 1);
      ProductPositive(b, Pow(b, k - 1));
    }
  }

  lemma {:induction false} PowOfOne(k: nat)
    ensures Pow(1.0, k) == 1.0
  {
    if k > 0 {
      PowOfOne(k - 1);
    }
  }

  /** For a base above one, a larger exponent gives a strictly larger power. */
  lemma {:induction false} PowStrictlyIncreasing(b: real, j: nat, k: nat)
    requires b > 1.0 && j < k
    ensures Pow(b, j) < Pow(b, k)
  {
    var p := Pow(b, k - 1);
    PowPositive(b, k - 1);
    var gain := (b - 1.0) * p;
    ProductPositive(b - 1.0, p);
    assert Pow(b, k) == p + gain;
    if j < k - 1 {
      PowStrictlyIncreasing(b, j, k - 1);
    } else {
      assert Pow(b, j) == p;
    }
  }

  /** For non-negative bases, the power is monotone in the base. */
  lemma {:induction false} PowMonotoneBase(a: real, b: real, k: nat)
    requires 0.0 <= a <= b
    ensures 0.0 <= Pow(a, k) <= Pow(b, k)
  {
    if k > 0 {
      PowMonotoneBase(a, b, k - 1);
      var pa, pb := Pow(a, k - 1), Pow(b, k - 1);
      assert a * pa <= a * pb;
      assert a * pb <= b * pb;
      assert 0.0 <= a * pa;
    }
  }
}
