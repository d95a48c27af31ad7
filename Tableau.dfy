/** The tableau: a list of rows of numbers. The last row is the objective row
    and the last entry of every row is the right-hand side. */
module Tableau {
  import opened PyNum

  type Matrix = seq<seq<Num>>

  /** At least one row, and every row as long as the first; used both for
      the tableau and for its exact values. */
  predicate Rectangular<T>(m: seq<seq<T>>)
  {
    |m| > 0 && forall r :: 0 <= r < |m| ==> |m[r]| == |m[0]|
  }

  function Width<T>(m: seq<seq<T>>): nat
    requires |m| > 0
  {
    |m[0]|
  }

  /** The exact rational values of every entry. */
  function Values(m: Matrix): (a: seq<seq<real>>)
    ensures |a| == |m|
    ensures forall r :: 0 <= r < |m| ==> |a[r]| == |m[r]|
    ensures Rectangular(m) ==> Rectangular(a) && |a[0]| == Width(m)
  {
    seq(|m|, r requires 0 <= r < |m| => seq(|m[r]|, j requires 0 <= j < |m[r]| => Value(m[r][j])))
  }

  lemma ValuesAt(m: Matrix, r: nat, j: nat)
    requires r < |m| && j < |m[r]|
    ensures Values(m)[r][j] == Value(m[r][j])
  {
  }

  /** Every entry is an `int` or a Fraction whose denominator is not 1. */
  predicate AllCanonical(m: Matrix)
  {
    forall r, j :: 0 <= r < |m| && 0 <= j < |m[r]| ==> IsCanonical(m[r][j])
  }
}
