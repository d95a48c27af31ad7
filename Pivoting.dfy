/** `pivot(matrix, row, col)`: exact Gauss-Jordan reduction of the tableau about
    one entry, in place. The functions below give, step by step, the rows the
    source builds; the method `Pivot` performs the same steps on the caller's
    array and is proved to end in `PivotResult`. */
module Pivoting {
  import opened PyNum
  import opened Tableau

  /** `x - y * f`: an entry `x` after subtracting the pivot-row entry `y` below
      it times the row's factor `f`. */
  function Eliminated(x: real, y: real, f: real): real
  {
    x - y * f
  }

  // ---------------------------------------------------------------------
  // Step 1: divide the pivot row by the pivot entry
  // ---------------------------------------------------------------------

  /** `x // p if x % p == 0 else Fraction(x, p)`: the exact quotient, kept as
      an `int` exactly when it is a whole number. The int fast path and the
      Fraction path agree on its value. */
  function ExactDiv(x: Num, p: Num): (r: Num)
    requires Value(p) != 0.0
    ensures Value(r) == Value(x) / Value(p)
    ensures r.Int? <==> IsIntegral(Value(x) / Value(p))
  {
    ModZeroIffExact(x, p);
    if Value(Mod(x, p)) == 0.0 then FloorDiv(x, p) else FracDiv(x, p)
  }

  /** One entry of the new pivot row: `ExactDiv` for an `int` pivot, `x / p`
      for a Fraction pivot. */
  function DivideEntry(x: Num, p: Num): (r: Num)
    requires Value(p) != 0.0
    ensures Value(r) == Value(x) / Value(p)
  {
    if p.Int? then ExactDiv(x, p) else FracDiv(x, p)
  }

  function DivideRow(row: seq<Num>, p: Num): (r: seq<Num>)
    requires Value(p) != 0.0
    ensures |r| == |row|
    ensures forall j :: 0 <= j < |row| ==> Value(r[j]) == Value(row[j]) / Value(p)
  {
    seq(|row|, j requires 0 <= j < |row| => DivideEntry(row[j], p))
  }

  // ---------------------------------------------------------------------
  // Step 2: eliminate the pivot column from every other row
  // ---------------------------------------------------------------------

  /** One entry `x` of another row, with `y` the entry of the new pivot row
      below it, `c` the row's entry in the pivot column and `d` the new pivot
      row's entry there: with both `c` and `d` ints the factor is
      `ExactDiv(c, d)`, otherwise it is `c` itself. */
  function EliminateEntry(x: Num, y: Num, c: Num, d: Num): (r: Num)
    requires c.Int? && d.Int? ==> d.i != 0
    ensures Value(d) == 1.0 ==> Value(r) == Eliminated(Value(x), Value(y), Value(c))
  {
    if c.Int? && d.Int? then Sub(x, Mul(y, ExactDiv(c, d))) else Sub(x, Mul(y, c))
  }

  function EliminateRow(row: seq<Num>, prow: seq<Num>, col: nat): (r: seq<Num>)
    requires |row| == |prow| && col < |row|
    requires row[col].Int? && prow[col].Int? ==> prow[col].i != 0
    ensures |r| == |row|
    ensures Value(prow[col]) == 1.0 ==>
      forall j :: 0 <= j < |row| ==> Value(r[j]) == Eliminated(Value(row[j]), Value(prow[j]), Value(row[col]))
  {
    seq(|row|, j requires 0 <= j < |row| => EliminateEntry(row[j], prow[j], row[col], prow[col]))
  }

  /** The new pivot row: its entry in the pivot column is now 1. */
  function PivotRow(m: Matrix, row: nat, col: nat): (prow: seq<Num>)
    requires Rectangular(m) && row < |m| && col < Width(m) && Value(m[row][col]) != 0.0
    ensures |prow| == Width(m)
    ensures Value(prow[col]) == 1.0 && (prow[col].Int? ==> prow[col].i == 1)
  {
    var p := m[row][col];
    var prow := DivideRow(m[row], p);
    assert Value(prow[col]) == Value(p) / Value(p);
    prow
  }

  /** The tableau after steps 1 and 2, before any Fraction is turned back into an int. */
  function Reduced(m: Matrix, row: nat, col: nat): (r: Matrix)
    requires Rectangular(m) && row < |m| && col < Width(m) && Value(m[row][col]) != 0.0
    ensures Rectangular(r) && |r| == |m| && Width(r) == Width(m)
  {
    var prow := PivotRow(m, row, col);
    seq(|m|, i requires 0 <= i < |m| => if i == row then prow else EliminateRow(m[i], prow, col))
  }

  // ---------------------------------------------------------------------
  // Step 3: Fractions with denominator 1 become ints
  // ---------------------------------------------------------------------

  function NormalizeRow(row: seq<Num>): (r: seq<Num>)
    ensures |r| == |row|
    ensures forall j :: 0 <= j < |row| ==> Value(r[j]) == Value(row[j]) && IsCanonical(r[j])
  {
    seq(|row|, j requires 0 <= j < |row| => Normalize(row[j]))
  }

  /** The tableau `pivot(matrix, row, col)` leaves behind. */
  function PivotResult(m: Matrix, row: nat, col: nat): (r: Matrix)
    requires Rectangular(m) && row < |m| && col < Width(m) && Value(m[row][col]) != 0.0
    ensures Rectangular(r) && |r| == |m| && Width(r) == Width(m)
    ensures AllCanonical(r)
  {
    var red := Reduced(m, row, col);
    seq(|m|, i requires 0 <= i < |m| => NormalizeRow(red[i]))
  }

  // ---------------------------------------------------------------------
  // Exact Gauss-Jordan reduction over the rationals, as a reference
  // ---------------------------------------------------------------------

  /** The textbook pivot: the pivot row divided by `p`, every other row minus
      its pivot-column entry times the new pivot row. */
  function RealPivot(a: seq<seq<real>>, row: nat, col: nat): seq<seq<real>>
    requires Rectangular(a) && row < |a| && col < |a[0]| && a[row][col] != 0.0
  {
    seq(|a|, i requires 0 <= i < |a| =>
      seq(|a[i]|, j requires 0 <= j < |a[i]| =>
        if i == row then a[row][j] / a[row][col]
        else Eliminated(a[i][j], a[row][j] / a[row][col], a[i][col])))
  }

  /** Pivoting on a nonzero entry makes its column a unit column. */
  lemma RealPivotUnitColumn(a: seq<seq<real>>, row: nat, col: nat)
    requires Rectangular(a) && row < |a| && col < |a[0]| && a[row][col] != 0.0
    ensures RealPivot(a, row, col)[row][col] == 1.0
    ensures forall i :: 0 <= i < |a| && i != row ==> RealPivot(a, row, col)[i][col] == 0.0
  {
    var p := a[row][col];
    assert p / p == 1.0;
  }

  /** Pivoting on an entry whose column is already a unit column with its 1
      there changes nothing. */
  lemma RealPivotOnUnitColumn(a: seq<seq<real>>, row: nat, col: nat)
    requires Rectangular(a) && row < |a| && col < |a[0]|
    requires a[row][col] == 1.0
    requires forall i :: 0 <= i < |a| && i != row ==> a[i][col] == 0.0
    ensures RealPivot(a, row, col) == a
  {
    var b := RealPivot(a, row, col);
    forall i | 0 <= i < |a|
      ensures b[i] == a[i]
    {
      assert |b[i]| == |a[i]|;
      forall j | 0 <= j < |a[i]|
        ensures b[i][j] == a[i][j]
      {
        assert a[row][j] / 1.0 == a[row][j];
      }
    }
  }

  // ---------------------------------------------------------------------
  // What the source's pivot promises
  // ---------------------------------------------------------------------

  /** Where each entry of the pivot comes from, one entry at a time. */
  lemma PivotResultAt(m: Matrix, row: nat, col: nat, i: nat, j: nat)
    requires Rectangular(m) && row < |m| && col < Width(m) && Value(m[row][col]) != 0.0
    requires i < |m| && j < Width(m)
    ensures var prow := PivotRow(m, row, col);
      PivotResult(m, row, col)[i][j]
        == Normalize(if i == row then prow[j] else EliminateRow(m[i], prow, col)[j])
  {
  }

  /** The new pivot row is the old one divided by the pivot entry. */
  lemma PivotRowValue(m: Matrix, row: nat, col: nat, j: nat)
    requires Rectangular(m) && row < |m| && col < Width(m) && Value(m[row][col]) != 0.0
    requires j < Width(m)
    ensures Value(PivotResult(m, row, col)[row][j]) == Value(m[row][j]) / Value(m[row][col])
  {
    PivotResultAt(m, row, col, row, j);
  }

  /** Every other row loses its pivot-column entry times the new pivot row. */
  lemma OtherRowValue(m: Matrix, row: nat, col: nat, i: nat, j: nat)
    requires Rectangular(m) && row < |m| && col < Width(m) && Value(m[row][col]) != 0.0
    requires i < |m| && i != row && j < Width(m)
    ensures Value(PivotResult(m, row, col)[i][j])
      == Eliminated(Value(m[i][j]), Value(PivotResult(m, row, col)[row][j]), Value(m[i][col]))
  {
    var prow := PivotRow(m, row, col);
    PivotResultAt(m, row, col, i, j);
    PivotResultAt(m, row, col, row, j);
    var e := EliminateRow(m[i], prow, col);
    assert Value(e[j]) == Eliminated(Value(m[i][j]), Value(prow[j]), Value(m[i][col]));
  }

  lemma RealPivotAt(a: seq<seq<real>>, row: nat, col: nat, i: nat, j: nat)
    requires Rectangular(a) && row < |a| && col < |a[0]| && a[row][col] != 0.0
    requires i < |a| && j < |a[0]|
    ensures RealPivot(a, row, col)[i][j]
      == if i == row then a[row][j] / a[row][col] else Eliminated(a[i][j], a[row][j] / a[row][col], a[i][col])
  {
  }

  /** The value one entry takes in the pivot. */
  lemma PivotEntryValue(m: Matrix, row: nat, col: nat, i: nat, j: nat)
    requires Rectangular(m) && row < |m| && col < Width(m) && Value(m[row][col]) != 0.0
    requires i < |m| && j < Width(m)
    ensures Values(PivotResult(m, row, col))[i][j] == RealPivot(Values(m), row, col)[i][j]
  {
    var a, res := Values(m), PivotResult(m, row, col);
    var x, c, y, p := Value(m[i][j]), Value(m[i][col]), Value(m[row][j]), Value(m[row][col]);
    var q := y / p;
    assert Values(res)[i][j] == Value(res[i][j]) by { ValuesAt(res, i, j); }
    assert RealPivot(a, row, col)[i][j] == if i == row then q else Eliminated(x, q, c) by {
      ValuesAt(m, i, j);
      ValuesAt(m, i, col);
      ValuesAt(m, row, j);
      ValuesAt(m, row, col);
      RealPivotAt(a, row, col, i, j);
    }
    if i == row {
      assert Value(res[i][j]) == q by { PivotRowValue(m, row, col, j); }
    } else {
      assert Value(res[i][j]) == Eliminated(x, q, c) by {
        PivotRowValue(m, row, col, j);
        OtherRowValue(m, row, col, i, j);
      }
    }
  }

  /** The pivot is exact: every value it leaves is the one Gauss-Jordan
      reduction over the rationals gives. Spelled out: the new pivot row is the
      old one divided by `p`, and every other row `r` is
      `old[r][j] - old[r][col] * newPivotRow[j]`. */
  lemma PivotExact(m: Matrix, row: nat, col: nat)
    requires Rectangular(m) && row < |m| && col < Width(m) && Value(m[row][col]) != 0.0
    ensures Values(PivotResult(m, row, col)) == RealPivot(Values(m), row, col)
    ensures forall j :: 0 <= j < Width(m) ==>
      Value(PivotResult(m, row, col)[row][j]) == Value(m[row][j]) / Value(m[row][col])
    ensures forall i, j :: 0 <= i < |m| && i != row && 0 <= j < Width(m) ==>
      Value(PivotResult(m, row, col)[i][j])
        == Eliminated(Value(m[i][j]), Value(PivotResult(m, row, col)[row][j]), Value(m[i][col]))
  {
    var res, a := PivotResult(m, row, col), Values(m);
    var b := RealPivot(a, row, col);
    forall i, j | 0 <= i < |m| && 0 <= j < Width(m)
      ensures Values(res)[i][j] == b[i][j]
    {
      PivotEntryValue(m, row, col, i, j);
    }
    forall j | 0 <= j < Width(m)
      ensures Value(res[row][j]) == Value(m[row][j]) / Value(m[row][col])
    {
      PivotRowValue(m, row, col, j);
    }
    forall i, j | 0 <= i < |m| && i != row && 0 <= j < Width(m)
      ensures Value(res[i][j]) == Eliminated(Value(m[i][j]), Value(res[row][j]), Value(m[i][col]))
    {
      OtherRowValue(m, row, col, i, j);
    }
    forall i | 0 <= i < |m|
      ensures Values(res)[i] == b[i]
    {
    }
  }

  /** After the pivot, column `col` is a unit column: the int 1 in the pivot
      row and the int 0 in every other row. */
  lemma PivotUnitColumn(m: Matrix, row: nat, col: nat)
    requires Rectangular(m) && row < |m| && col < Width(m) && Value(m[row][col]) != 0.0
    ensures PivotResult(m, row, col)[row][col] == Int(1)
    ensures forall i :: 0 <= i < |m| && i != row ==> PivotResult(m, row, col)[i][col] == Int(0)
  {
    var res := PivotResult(m, row, col);
    PivotExact(m, row, col);
    RealPivotUnitColumn(Values(m), row, col);
    assert Values(res)[row][col] == 1.0;
    CanonicalUnique(res[row][col], Int(1));
    forall i | 0 <= i < |m| && i != row
      ensures res[i][col] == Int(0)
    {
      assert Values(res)[i][col] == 0.0;
      CanonicalUnique(res[i][col], Int(0));
    }
  }

  /** Pivoting again on the same entry, with nothing in between, is the
      identity: the first pivot already left a unit column, the pivot entry is
      the int 1, and every entry is in canonical form. */
  lemma PivotIdempotent(m: Matrix, row: nat, col: nat)
    requires Rectangular(m) && row < |m| && col < Width(m) && Value(m[row][col]) != 0.0
    ensures Value(PivotResult(m, row, col)[row][col]) != 0.0
    ensures PivotResult(PivotResult(m, row, col), row, col) == PivotResult(m, row, col)
  {
    var res := PivotResult(m, row, col);
    var a := Values(res);
    assert a[row][col] == 1.0 && forall i :: 0 <= i < |a| && i != row ==> a[i][col] == 0.0 by {
      PivotUnitColumn(m, row, col);
      forall i | 0 <= i < |a|
        ensures a[i][col] == Value(res[i][col])
      {
        ValuesAt(res, i, col);
      }
    }
    var twice := PivotResult(res, row, col);
    assert Values(twice) == a by {
      PivotExact(res, row, col);
      RealPivotOnUnitColumn(a, row, col);
    }
    CanonicalByValues(twice, res);
  }

  /** Two canonical tableaux with the same values are the same tableau. */
  lemma CanonicalByValues(x: Matrix, y: Matrix)
    requires AllCanonical(x) && AllCanonical(y) && Values(x) == Values(y)
    ensures x == y
  {
    forall i | 0 <= i < |x|
      ensures x[i] == y[i]
    {
      forall j | 0 <= j < |x[i]|
        ensures x[i][j] == y[i][j]
      {
        ValuesAt(x, i, j);
        ValuesAt(y, i, j);
        CanonicalUnique(x[i][j], y[i][j]);
      }
    }
  }

  // ---------------------------------------------------------------------
  // The in-place operation
  // ---------------------------------------------------------------------

  /** `pivot(matrix, row, col)` on the caller's list of rows. A zero pivot entry
      raises ZeroDivisionError (from `x % pivot` or `x / pivot`) before any row
      is reassigned; that is `ok == false` with the tableau untouched. */
  method Pivot(m: array<seq<Num>>, row: nat, col: nat) returns (ok: bool)
    requires Rectangular(m[..]) && row < m.Length && col < |m[0]|
    modifies m
    ensures ok <==> Value(old(m[row][col])) != 0.0
    ensures ok ==> m[..] == PivotResult(old(m[..]), row, col)
    ensures !ok ==> m[..] == old(m[..])
  {
    var p := m[row][col];
    if Value(p) == 0.0 {
      return false;
    }
    ghost var before := m[..];
    ghost var red := Reduced(before, row, col);
    m[row] := DivideRow(m[row], p);
    assert m[row] == PivotRow(before, row, col);
    EliminateInPlace(m, row, col);
    assert m[..] == red;
    NormalizeInPlace(m);
    assert m[..] == PivotResult(before, row, col);
    return true;
  }

  /** Lines 48-54 of `pivot`: every row but the pivot row is replaced by a new
      list with the pivot column eliminated, the pivot row being `m[row]`. */
  method EliminateInPlace(m: array<seq<Num>>, row: nat, col: nat)
    requires row < m.Length && col < |m[row]|
    requires forall k :: 0 <= k < m.Length ==> |m[k]| == |m[row]|
    requires m[row][col].Int? ==> m[row][col].i != 0
    modifies m
    ensures forall k :: 0 <= k < m.Length ==>
      m[k] == if k == row then old(m[row]) else EliminateRow(old(m[k]), old(m[row]), col)
  {
    var r := 0;
    while r < m.Length
      invariant 0 <= r <= m.Length
      invariant m[row] == old(m[row])
      invariant forall k :: 0 <= k < r && k != row ==> m[k] == EliminateRow(old(m[k]), old(m[row]), col)
      invariant forall k :: r <= k < m.Length ==> m[k] == old(m[k])
    {
      if r != row {
        m[r] := EliminateRow(m[r], m[row], col);
      }
      r := r + 1;
    }
  }

  /** Lines 56-60 of `pivot`: every Fraction with denominator 1 in the tableau
      is replaced, in place, by its numerator. */
  method NormalizeInPlace(m: array<seq<Num>>)
    modifies m
    ensures forall k :: 0 <= k < m.Length ==> m[k] == NormalizeRow(old(m[k]))
  {
    var i := 0;
    while i < m.Length
      invariant 0 <= i <= m.Length
      invariant forall k :: 0 <= k < i ==> m[k] == NormalizeRow(old(m[k]))
      invariant forall k :: i <= k < m.Length ==> m[k] == old(m[k])
    {
      var rowv := m[i];
      var j := 0;
      while j < |rowv|
        invariant 0 <= j <= |rowv| == |old(m[i])|
        invariant forall t :: 0 <= t < j ==> rowv[t] == Normalize(old(m[i])[t])
        invariant forall t :: j <= t < |rowv| ==> rowv[t] == old(m[i])[t]
      {
        var x := rowv[j];
        if x.Frac? && IsIntegral(x.q) {
          rowv := rowv[j := Int(x.q.Floor)];
        }
        j := j + 1;
      }
      m[i] := rowv;
      i := i + 1;
    }
  }
}
