/** The numeric layer under the calculator: JavaScript numbers as the calculator's
    guards see them, the remainder operator `%` (exact in IEEE-754, so defined here),
    the factorial, and a `Host` record that stands for everything the model leaves
    uninterpreted: `parseFloat`, the rounded operators, the `Math` functions and the
    finite branch of `formatResult`. */
module Numbers {

  /** A JavaScript number. A finite double is an exact real; +0 and -0 are one value,
      which no comparison made by the calculator tells apart. */
  datatype Double = NaN | Infinity | NegativeInfinity | Finite(r: real)

  /** The binary operators that `calculate` knows. */
  datatype Operator = Add | Subtract | Multiply | Divide | Power | Modulo

  /** The names that `scientificFunction` knows; `Fact` is the 'factorial' key. */
  datatype MathFunction =
    | Sin | Cos | Tan | Asin | Acos | Atan
    | Log | Ln | Sqrt | Exp | Pow10 | Fact
    | Pi | E | Abs | Reciprocal

  predicate IsInteger(x: real) {
    x.Floor as real == x
  }

  /** Truncation toward zero (ECMAScript's `truncate`). */
  function Truncate(x: real): (t: int)
    ensures 0.0 <= x ==> t as real <= x < t as real + 1.0
    ensures x < 0.0 ==> t as real - 1.0 < x <= t as real
  {
    if 0.0 <= x then x.Floor else -((-x).Floor)
  }

  /** `n % d`, Number::remainder of ECMA-262 (section 6.1.6.1.6): NaN for a NaN
      operand, an infinite dividend or a zero divisor; the dividend itself for an
      infinite divisor or a zero dividend; otherwise n - d * q with q the quotient
      truncated toward zero. */
  function Remainder(n: Double, d: Double): (m: Double)
    ensures d == Finite(0.0) ==> m == NaN
    ensures n.NaN? || d.NaN? ==> m == NaN
    ensures n.Finite? && d.Finite? && d.r != 0.0 ==> m.Finite?
  {
    if n.NaN? || d.NaN? || !n.Finite? || d == Finite(0.0) then NaN
    else if !d.Finite? || n.r == 0.0 then n
    else Finite(n.r - d.r * Truncate(n.r / d.r) as real)
  }

  function Magnitude(x: real): real {
    if x < 0.0 then -x else x
  }

  /** The remainder takes the sign of the dividend, is smaller than the divisor in
      magnitude, and differs from the dividend by a whole multiple of the divisor. */
  lemma RemainderFollowsDividend(n: real, d: real)
    requires d != 0.0
    ensures Remainder(Finite(n), Finite(d)).Finite?
    ensures Magnitude(Remainder(Finite(n), Finite(d)).r) < Magnitude(d)
    ensures 0.0 < n ==> 0.0 <= Remainder(Finite(n), Finite(d)).r
    ensures n < 0.0 ==> Remainder(Finite(n), Finite(d)).r <= 0.0
    ensures IsInteger((n - Remainder(Finite(n), Finite(d)).r) / d)
  {
    if n == 0.0 {
      assert Remainder(Finite(n), Finite(d)) == Finite(0.0);
      assert (n - 0.0) / d == 0.0;
    } else {
      var t := n / d;
      var q := Truncate(t);
      var m := n - d * q as real;
      assert Remainder(Finite(n), Finite(d)) == Finite(m);
      TruncatedQuotient(n, d, t, q, m);
      assert IsInteger(q as real);
    }
  }

  /** The arithmetic behind RemainderFollowsDividend, for the quotient t = n / d,
      its truncation q and the remainder m. */
  lemma TruncatedQuotient(n: real, d: real, t: real, q: int, m: real)
    requires d != 0.0 && n != 0.0 && t == n / d && m == n - d * q as real
    requires 0.0 <= t ==> q as real <= t < q as real + 1.0
    requires t < 0.0 ==> q as real - 1.0 < t <= q as real
    ensures Magnitude(m) < Magnitude(d)
    ensures 0.0 < n ==> 0.0 <= m
    ensures n < 0.0 ==> m <= 0.0
    ensures (n - m) / d == q as real
  {
    var f := t - q as real;
    assert n == d * t;
    assert m == d * f;
    assert -1.0 < f < 1.0;
    ProductBound(d, f);
    assert 0.0 <= t ==> 0.0 <= f;
    assert t < 0.0 ==> f <= 0.0;
    if 0.0 < d {
      assert 0.0 < n <==> 0.0 < t;
    } else {
      assert 0.0 < n <==> t < 0.0;
    }
    ProductSign(d, f);
    assert n - m == d * q as real;
  }

  /** The sign of a product follows the signs of its factors. */
  lemma ProductSign(a: real, b: real)
    ensures 0.0 < a && 0.0 <= b ==> 0.0 <= a * b
    ensures 0.0 < a && b <= 0.0 ==> a * b <= 0.0
    ensures a < 0.0 && 0.0 <= b ==> a * b <= 0.0
    ensures a < 0.0 && b <= 0.0 ==> 0.0 <= a * b
  {
  }

  /** A factor smaller than one in magnitude makes a product smaller than the other factor. */
  lemma ProductBound(a: real, f: real)
    requires a != 0.0 && -1.0 < f < 1.0
    ensures Magnitude(a * f) < Magnitude(a)
  {
    var g, m := Magnitude(f), Magnitude(a);
    assert Magnitude(a * f) == m * g by {
      if a < 0.0 && f < 0.0 {
        assert a * f == (-a) * (-f);
      } else if a < 0.0 {
        assert -(a * f) == (-a) * f;
      } else if f < 0.0 {
        assert -(a * f) == a * (-f);
      }
    }
    assert m * g < m by {
      assert m - m * g == m * (1.0 - g);
    }
  }

  /** `value % 1 === 0` holds exactly of the finite whole numbers. */
  lemma RemainderByOneIsZero(v: Double)
    ensures Remainder(v, Finite(1.0)) == Finite(0.0) <==> v.Finite? && IsInteger(v.r)
  {
    if v.Finite? && v.r != 0.0 {
      assert v.r / 1.0 == v.r;
      var t := Truncate(v.r);
      if 0.0 <= v.r {
        assert t == v.r.Floor;
      } else {
        assert IsInteger(v.r) ==> t == v.r.Floor;
        assert t as real == v.r ==> IsInteger(v.r);
      }
    }
  }

  /** n!, the product 1 * 2 * ... * n. */
  function Factorial(n: nat): (r: nat)
    ensures 1 <= r
    ensures n <= r
  {
    if n == 0 then 1 else n * Factorial(n - 1)
  }

  /** What the model leaves uninterpreted, as function values:
      - `parseFloat`: JavaScript's parseFloat of an operand string;
      - `arithmetic`: the rounded result of `+ - * / ^` (never consulted for Modulo);
      - `math`: the `Math` function behind each scientific key, degree conversion
        included (never consulted for Fact, Pi and E);
      - `pi`, `e`: Math.PI and Math.E;
      - `fromInteger`: the double nearest to an integer (Infinity when too large);
      - `showFinite`: `formatResult` of a finite number, rounding and trimming included. */
  datatype Host = Host(
    parseFloat: string -> Double,
    arithmetic: (Operator, Double, Double) -> Double,
    math: (MathFunction, Double) -> Double,
    pi: Double,
    e: Double,
    fromInteger: nat -> Double,
    showFinite: real -> string)

  /** What `formatResult` guarantees of a finite number: `toString` or `toFixed`
      output, never empty and with at most one decimal point. */
  ghost predicate WellFormed(h: Host) {
    forall x: real :: h.showFinite(x) != "" && multiset(h.showFinite(x))['.'] <= 1
  }

  /** `formatResult`: 'Error' for NaN and the infinities, the host's rendering otherwise. */
  function FormatResult(h: Host, x: Double): (s: string)
    ensures !x.Finite? ==> s == "Error"
    ensures x.Finite? ==> s == h.showFinite(x.r)
    ensures WellFormed(h) ==> s != "" && multiset(s)['.'] <= 1
  {
    if x.Finite? then h.showFinite(x.r) else "Error"
  }

  /** JavaScript's `v <= 0`: false for NaN. */
  predicate AtMostZero(v: Double): (b: bool)
    ensures v.NaN? || v == Infinity ==> !b
    ensures v == NegativeInfinity ==> b
    ensures v.Finite? ==> (b <==> v.r <= 0.0)
  {
    v == NegativeInfinity || (v.Finite? && v.r <= 0.0)
  }

  /** JavaScript's `v < 0`: false for NaN. */
  predicate BelowZero(v: Double): (b: bool)
    ensures v.NaN? || v == Infinity ==> !b
    ensures v == NegativeInfinity ==> b
    ensures v.Finite? ==> (b <==> v.r < 0.0)
  {
    v == NegativeInfinity || (v.Finite? && v.r < 0.0)
  }

  /** `v <= 0` is `v < 0` or `v` is zero, NaN included (it satisfies neither). */
  lemma AtMostZeroIsBelowOrZero(v: Double)
    ensures AtMostZero(v) <==> BelowZero(v) || v == Finite(0.0)
  {
  }

  /** `Math.abs`, which is exact. */
  function AbsoluteValue(v: Double): (a: Double)
    ensures v.NaN? <==> a.NaN?
    ensures !BelowZero(a)
    ensures v.Finite? ==> a.Finite? && (a.r == v.r || a.r == -v.r)
  {
    match v
    case NaN => NaN
    case Infinity => Infinity
    case NegativeInfinity => Infinity
    case Finite(r) => Finite(Magnitude(r))
  }

  /** The result of `prev op curr` once the zero-divisor check has passed. */
  function Apply(h: Host, op: Operator, prev: Double, curr: Double): Double {
    if op == Modulo then Remainder(prev, curr) else h.arithmetic(op, prev, curr)
  }
}
