/** The pivot suggestion of `simplex`: the entering column is the first most
    negative objective coefficient (`list.index(min(...))`), the leaving row the
    first row of least ratio `rhs / entry` (`min(range(...), key=...)`), where
    a zero entry has ratio `float('inf')`. From these the loop decides whether
    the tableau is optimal, unbounded, or ready for a pivot. */
module Selection {
  import opened PyNum
  import opened Tableau

  // ---------------------------------------------------------------------
  // Entering column: matrix[-1][:-1].index(min(matrix[-1][:-1]))
  // ---------------------------------------------------------------------

  /** `matrix[-1][:-1]`: the objective row without its right-hand side, by value. */
  function Costs(m: Matrix): (c: seq<real>)
    requires Rectangular(m)
    ensures |c| == if Width(m) == 0 then 0 else Width(m) - 1
    ensures forall j :: 0 <= j < |c| ==> c[j] == Value(m[|m| - 1][j])
  {
    var obj := m[|m| - 1];
    var n := if |obj| == 0 then 0 else |obj| - 1;
    seq(n, j requires 0 <= j < n => Value(obj[j]))
  }

  /** Python's `min` over a non-empty list: a running minimum from the left. */
  function MinValue(s: seq<real>): (v: real)
    requires |s| > 0
    ensures exists k :: 0 <= k < |s| && s[k] == v
    ensures forall k :: 0 <= k < |s| ==> v <= s[k]
  {
    if |s| == 1 then s[0]
    else
      var v := MinValue(s[..|s| - 1]);
      if s[|s| - 1] < v then s[|s| - 1] else v
  }

  /** Python's `list.index(v)`: the first position holding `v`. */
  function IndexOf(s: seq<real>, v: real): (i: nat)
    requires exists k :: 0 <= k < |s| && s[k] == v
    ensures i < |s| && s[i] == v
    ensures forall k :: 0 <= k < i ==> s[k] != v
  {
    if s[0] == v then 0 else 1 + IndexOf(s[1..], v)
  }

  /** The column the loop would pivot on. */
  function EnteringColumn(m: Matrix): (c: nat)
    requires Rectangular(m) && Width(m) >= 2
    ensures c < Width(m) - 1
  {
    var costs := Costs(m);
    IndexOf(costs, MinValue(costs))
  }

  /** The entering column is the first position of a least objective coefficient. */
  lemma EnteringColumnIsFirstMinimum(m: Matrix)
    requires Rectangular(m) && Width(m) >= 2
    ensures var c, obj := EnteringColumn(m), m[|m| - 1];
      (forall j :: 0 <= j < Width(m) - 1 ==> Value(obj[c]) <= Value(obj[j])) &&
      (forall j :: 0 <= j < c ==> Value(obj[c]) < Value(obj[j]))
  {
    var costs := Costs(m);
    var v := MinValue(costs);
    var c := IndexOf(costs, v);
    var obj := m[|m| - 1];
    assert c == EnteringColumn(m) && costs[c] == Value(obj[c]);
    forall j | 0 <= j < Width(m) - 1
      ensures Value(obj[c]) <= Value(obj[j])
    {
      assert costs[j] == Value(obj[j]);
    }
    forall j | 0 <= j < c
      ensures Value(obj[c]) < Value(obj[j])
    {
      assert costs[j] == Value(obj[j]) && v <= costs[j] && costs[j] != v;
    }
  }

  // ---------------------------------------------------------------------
  // Leaving row: min(range(len(matrix) - 1), key=ratio)
  // ---------------------------------------------------------------------

  /** A ratio of the minimum-ratio test; a zero entry gives `float('inf')`. */
  datatype Ratio = Finite(v: real) | Infinite

  /** Python's `<` between two ratio keys: `float('inf')` is below no key, not
      even itself, and every finite ratio is below it. */
  predicate RatioLess(a: Ratio, b: Ratio)
    ensures RatioLess(a, b) ==> a.Finite?
    ensures a.Finite? && b.Infinite? ==> RatioLess(a, b)
  {
    match (a, b)
    case (Finite(x), Finite(y)) => x < y
    case (Finite(_), Infinite) => true
    case (Infinite, _) => false
  }

  /** `RatioLess` is a strict total order, as Python's `<` is on these keys;
      this is what makes `min` with a key well defined. */
  lemma RatioLessIsStrictTotalOrder(a: Ratio, b: Ratio, c: Ratio)
    ensures !RatioLess(a, a)
    ensures RatioLess(a, b) ==> !RatioLess(b, a)
    ensures RatioLess(a, b) && RatioLess(b, c) ==> RatioLess(a, c)
    ensures a == b || RatioLess(a, b) || RatioLess(b, a)
  {
  }

  /** The key of row `k`: `matrix[k][-1] / matrix[k][col]` when the entry is not 0. */
  function RowRatio(m: Matrix, k: nat, col: nat): (r: Ratio)
    requires Rectangular(m) && k < |m| && col < Width(m)
    ensures r.Infinite? <==> Value(m[k][col]) == 0.0
    ensures r.Finite? ==> r.v * Value(m[k][col]) == Value(m[k][Width(m) - 1])
  {
    if Value(m[k][col]) != 0.0 then Finite(Value(m[k][Width(m) - 1]) / Value(m[k][col]))
    else Infinite
  }

  /** Python's `min` with a key over `0 .. |keys|-1`: the running best is
      replaced only by a strictly smaller key, so ties go to the first. */
  function ArgMin(keys: seq<Ratio>): (b: nat)
    requires |keys| > 0
    ensures b < |keys|
    ensures forall k :: 0 <= k < |keys| ==> !RatioLess(keys[k], keys[b])
    ensures forall k :: 0 <= k < b ==> RatioLess(keys[b], keys[k])
  {
    if |keys| == 1 then 0
    else
      var b := ArgMin(keys[..|keys| - 1]);
      if RatioLess(keys[|keys| - 1], keys[b]) then |keys| - 1 else b
  }

  function Ratios(m: Matrix, col: nat): (keys: seq<Ratio>)
    requires Rectangular(m) && col < Width(m)
    ensures |keys| == |m| - 1
    ensures forall k :: 0 <= k < |keys| ==> keys[k] == RowRatio(m, k, col)
  {
    seq(|m| - 1, k requires 0 <= k < |m| - 1 => RowRatio(m, k, col))
  }

  /** The row the loop would pivot on: the first constraint row of least ratio. */
  function LeavingRow(m: Matrix, col: nat): (r: nat)
    requires Rectangular(m) && |m| >= 2 && col < Width(m)
    ensures r < |m| - 1
    ensures forall k :: 0 <= k < |m| - 1 ==> !RatioLess(RowRatio(m, k, col), RowRatio(m, r, col))
    ensures forall k :: 0 <= k < r ==> RatioLess(RowRatio(m, r, col), RowRatio(m, k, col))
  {
    var keys := Ratios(m, col);
    var r := ArgMin(keys);
    assert forall k :: 0 <= k < |m| - 1 ==> keys[k] == RowRatio(m, k, col);
    r
  }

  // ---------------------------------------------------------------------
  // The decision at the top of each round of `simplex`
  // ---------------------------------------------------------------------

  /** `EmptyMin` is the ValueError `min()` raises on an empty sequence: a
      tableau of width below 2, or a non-optimal tableau with no constraint row. */
  datatype Decision = Optimal | Unbounded | EmptyMin | Suggest(row: nat, col: nat)

  predicate HasNegativeCost(m: Matrix)
    requires Rectangular(m)
  {
    var obj := m[|m| - 1];
    exists j :: 0 <= j < Width(m) - 1 && Value(obj[j]) < 0.0
  }

  function Select(m: Matrix): (d: Decision)
    requires Rectangular(m)
    ensures d.Optimal? <==> Width(m) >= 2 && !HasNegativeCost(m)
    ensures d.EmptyMin? <==> Width(m) < 2 || (|m| < 2 && HasNegativeCost(m))
    ensures d.Suggest? ==> d.row < |m| - 1 && d.col < Width(m) - 1
  {
    if Width(m) < 2 then EmptyMin
    else
      var col := EnteringColumn(m);
      EnteringColumnIsFirstMinimum(m);
      if Value(m[|m| - 1][col]) >= 0.0 then Optimal
      else if |m| < 2 then EmptyMin
      else
        var row := LeavingRow(m, col);
        if Value(m[row][Width(m) - 1]) == 0.0 then Unbounded else Suggest(row, col)
  }

  /** The loop stops with `Unbounded` exactly when some coefficient is negative
      and the least-ratio row has right-hand side 0, whatever the signs of the
      entries in the entering column. */
  lemma UnboundedIffZeroRhs(m: Matrix)
    requires Rectangular(m) && Width(m) >= 2 && |m| >= 2
    ensures Select(m).Unbounded? <==>
      HasNegativeCost(m) && Value(m[LeavingRow(m, EnteringColumn(m))][Width(m) - 1]) == 0.0
  {
    EnteringColumnIsFirstMinimum(m);
  }

  /** A suggestion is made on the first most negative coefficient and on the
      first row of least ratio, and its row has a nonzero right-hand side. */
  lemma SuggestionIsMinimal(m: Matrix)
    requires Rectangular(m) && Select(m).Suggest?
    ensures var d, obj := Select(m), m[|m| - 1];
      Value(obj[d.col]) < 0.0 &&
      (forall j :: 0 <= j < Width(m) - 1 ==> Value(obj[d.col]) <= Value(obj[j])) &&
      (forall j :: 0 <= j < d.col ==> Value(obj[d.col]) < Value(obj[j])) &&
      Value(m[d.row][Width(m) - 1]) != 0.0 &&
      (forall k :: 0 <= k < |m| - 1 ==> !RatioLess(RowRatio(m, k, d.col), RowRatio(m, d.row, d.col))) &&
      (forall k :: 0 <= k < d.row ==> RatioLess(RowRatio(m, d.row, d.col), RowRatio(m, k, d.col)))
  {
    EnteringColumnIsFirstMinimum(m);
  }

  /** The suggested entry is 0 only when every constraint entry of the
      column is 0: the infinite ratio wins only when no ratio is finite. */
  lemma ZeroSuggestionMeansZeroColumn(m: Matrix)
    requires Rectangular(m) && Select(m).Suggest?
    ensures var d := Select(m);
      Value(m[d.row][d.col]) == 0.0 <==> forall k :: 0 <= k < |m| - 1 ==> Value(m[k][d.col]) == 0.0
  {
    var d := Select(m);
    SuggestionIsMinimal(m);
    if Value(m[d.row][d.col]) == 0.0 {
      forall k | 0 <= k < |m| - 1
        ensures Value(m[k][d.col]) == 0.0
      {
        assert !RatioLess(RowRatio(m, k, d.col), Infinite);
      }
    }
  }
}
