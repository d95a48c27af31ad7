/** The numbers a tableau holds: a Python `int` or a `fractions.Fraction`.
    A Fraction is an exact rational, so it is modelled by its value; its
    `denominator == 1` test is "the value is an integer". The arithmetic below
    follows Python's rules for mixing the two: `int op int` stays an `int`,
    anything with a Fraction in it is a Fraction, except that `//` always
    yields an `int`. */
module PyNum {

  datatype Num = Int(i: int) | Frac(q: real)

  /** The exact rational a number stands for. */
  function Value(x: Num): real
  {
    match x
    case Int(i) => i as real
    case Frac(q) => q
  }

  /** A rational whose reduced denominator is 1. */
  predicate IsIntegral(q: real)
  {
    q.Floor as real == q
  }

  /** The form the pivot leaves every entry in: no Fraction with denominator 1. */
  predicate IsCanonical(x: Num)
  {
    !(x.Frac? && IsIntegral(x.q))
  }

  // ---------------------------------------------------------------------
  // Python's floor division and modulo on ints
  // ---------------------------------------------------------------------

  lemma QuotientBetween(a: real, b: real, q: real)
    requires b > 0.0
    requires q * b <= a < q * b + b
    ensures q <= a / b < q + 1.0
  {
    var t := a / b;
    assert t * b == a;
    assert (t - q) * b == a - q * b;
    assert (t - q - 1.0) * b == a - q * b - b;
    SignOfProduct(t - q, b);
    SignOfProduct(t - q - 1.0, b);
  }

  lemma SignOfProduct(d: real, b: real)
    requires b > 0.0
    ensures d < 0.0 ==> d * b < 0.0
    ensures d >= 0.0 ==> d * b >= 0.0
  {
  }

  /** Dafny's `na / nb` for a positive divisor is the floor of the quotient. */
  lemma EuclideanQuotientBetween(na: int, nb: int)
    requires nb > 0
    ensures (na / nb) as real <= na as real / nb as real < (na / nb) as real + 1.0
  {
    var q, r := na / nb, na % nb;
    assert na == q * nb + r && 0 <= r < nb;
    assert (q * nb) as real == q as real * nb as real;
    assert na as real == q as real * nb as real + r as real;
    QuotientBetween(na as real, nb as real, q as real);
  }

  /** Python's `a // b` on ints: the floor of the exact quotient. */
  function FloorDivInt(a: int, b: int): (q: int)
    requires b != 0
    ensures q as real <= a as real / b as real < q as real + 1.0
  {
    var na, nb := if b > 0 then a else -a, if b > 0 then b else -b;
    EuclideanQuotientBetween(na, nb);
    assert na as real / nb as real == a as real / b as real;
    na / nb
  }

  /** Python's `a % b` on ints: the remainder takes the sign of the divisor. */
  function ModInt(a: int, b: int): (r: int)
    requires b != 0
    ensures b > 0 ==> 0 <= r < b
    ensures b < 0 ==> b < r <= 0
    ensures a == b * FloorDivInt(a, b) + r
  {
    var na, nb := if b > 0 then a else -a, if b > 0 then b else -b;
    assert na / nb == FloorDivInt(a, b);
    assert na == nb * (na / nb) + na % nb;
    a - b * FloorDivInt(a, b)
  }

  /** The int fast path of the pivot: when `a % b == 0` in Python, `a // b` is
      the exact quotient, and it agrees with Dafny's Euclidean division. */
  lemma ExactIntQuotient(a: int, b: int)
    requires b != 0 && ModInt(a, b) == 0
    ensures FloorDivInt(a, b) as real == a as real / b as real
    ensures a % b == 0 && FloorDivInt(a, b) == a / b
  {
    var q := FloorDivInt(a, b);
    assert a == b * q;
    assert a as real == b as real * q as real;
    var e, r := a / b, a % b;
    assert a == b * e + r && 0 <= r;
    if b > 0 {
      NoSmallMultiple(b, q - e, r);
    } else {
      NoSmallMultiple(-b, e - q, r);
    }
  }

  /** A nonzero multiple of a positive `b` is at least `b` away from 0. */
  lemma NoSmallMultiple(b: int, k: int, r: int)
    requires b > 0 && b * k == r && 0 <= r < b
    ensures k == 0 && r == 0
  {
  }

  /** Python's `a % b == 0` on ints holds exactly when `b` divides `a`. */
  lemma ModIntZeroIffDivides(a: int, b: int)
    requires b != 0
    ensures ModInt(a, b) == 0 <==> a % b == 0
  {
    if a % b == 0 {
      var k := a / b;
      assert a == b * k;
      assert (k as real) * (b as real) == a as real;
      assert a as real / b as real == k as real;
      assert FloorDivInt(a, b) == k;
    } else if ModInt(a, b) == 0 {
      ExactIntQuotient(a, b);
    }
  }

  // ---------------------------------------------------------------------
  // Mixed int / Fraction arithmetic
  // ---------------------------------------------------------------------

  /** Python `x - y`. */
  function Sub(x: Num, y: Num): (r: Num)
    ensures Value(r) == Value(x) - Value(y)
    ensures r.Int? <==> x.Int? && y.Int?
  {
    if x.Int? && y.Int? then Int(x.i - y.i) else Frac(Value(x) - Value(y))
  }

  /** Python `x * y`. */
  function Mul(x: Num, y: Num): (r: Num)
    ensures Value(r) == Value(x) * Value(y)
    ensures r.Int? <==> x.Int? && y.Int?
  {
    if x.Int? && y.Int? then Int(x.i * y.i) else Frac(Value(x) * Value(y))
  }

  /** Python `x // y`: an `int` in every case, also when a Fraction is involved. */
  function FloorDiv(x: Num, y: Num): (r: Num)
    requires Value(y) != 0.0
    ensures r.Int?
    ensures Value(r) <= Value(x) / Value(y) < Value(r) + 1.0
  {
    if x.Int? && y.Int? then Int(FloorDivInt(x.i, y.i))
    else Int((Value(x) / Value(y)).Floor)
  }

  /** Python `x % y`: what is left after taking `x // y` copies of `y`. */
  function Mod(x: Num, y: Num): (r: Num)
    requires Value(y) != 0.0
    ensures Value(r) == Value(x) - Value(y) * Value(FloorDiv(x, y))
    ensures r.Int? <==> x.Int? && y.Int?
  {
    if x.Int? && y.Int? then Int(ModInt(x.i, y.i))
    else Frac(Value(x) - Value(y) * (Value(x) / Value(y)).Floor as real)
  }

  /** `Fraction(x, y)`, and `x / y` when one operand is a Fraction: the exact quotient. */
  function FracDiv(x: Num, y: Num): (r: Num)
    requires Value(y) != 0.0
    ensures r.Frac? && Value(r) * Value(y) == Value(x)
  {
    Frac(Value(x) / Value(y))
  }

  /** `x % y == 0` holds exactly when the quotient is an integer, and then
      `x // y` is that quotient: the int branch and the Fraction branch of the
      pivot agree on the value. */
  lemma ModZeroIffExact(x: Num, y: Num)
    requires Value(y) != 0.0
    ensures Value(Mod(x, y)) == 0.0 <==> IsIntegral(Value(x) / Value(y))
    ensures Value(Mod(x, y)) == 0.0 ==> Value(FloorDiv(x, y)) == Value(x) / Value(y)
  {
    var X, Y := Value(x), Value(y);
    var t, f, m := X / Y, FloorDiv(x, y), Mod(x, y);
    var F := f.i as real;
    assert Value(m) == X - Y * F;
    assert f.i == t.Floor by { FloorUnique(t, f.i); }
    assert Value(m) == 0.0 <==> F == t by { RemainderFactor(X, Y, F); }
  }

  lemma FloorUnique(t: real, k: int)
    requires k as real <= t < k as real + 1.0
    ensures k == t.Floor
  {
  }

  /** `x - y * f` vanishes exactly when `f` is the quotient `x / y`. */
  lemma RemainderFactor(x: real, y: real, f: real)
    requires y != 0.0
    ensures x - y * f == 0.0 <==> f == x / y
  {
    var t := x / y;
    assert t * y == x;
    assert x - y * f == (t - f) * y;
  }

  // ---------------------------------------------------------------------
  // Normalisation (Fraction with denominator 1 back to int)
  // ---------------------------------------------------------------------

  /** Turn a Fraction with denominator 1 into its numerator as an `int`. */
  function Normalize(x: Num): (r: Num)
    ensures Value(r) == Value(x)
    ensures IsCanonical(r)
    ensures IsCanonical(x) ==> r == x
  {
    if x.Frac? && IsIntegral(x.q) then Int(x.q.Floor) else x
  }

  /** A canonical number is determined by its value. */
  lemma CanonicalUnique(x: Num, y: Num)
    requires IsCanonical(x) && IsCanonical(y) && Value(x) == Value(y)
    ensures x == y
  {
  }
}
