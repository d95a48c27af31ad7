/** One round of the loop of `simplex`: it inspects the objective row, returns
    or raises when the tableau is optimal or unbounded, and otherwise reads a
    pivot column and row from the user and pivots the caller's tableau in
    place. The user's answer is a parameter, a `Choice`. */
module Controller {
  import opened PyNum
  import opened Tableau
  import opened Pivoting
  import opened Selection

  /** What the two `int(input(...))` prompts produced. A `ValueError` on the
      column prompt leaves both suggested indices in place; one on the row
      prompt keeps the column just read and the suggested row. */
  datatype Choice = Entered(col: int, row: int) | ColumnOnly(col: int) | NothingEntered

  /** How a round ends. `ReturnedOptimal` is `return matrix`; the `Raised`
      outcomes are exceptions that leave `simplex`; `ZeroPivotReported` is the
      caught ZeroDivisionError; `NegativeRowPivot` is a pivot on a negative row
      index, which this model does not carry out. */
  datatype Outcome =
    | ReturnedOptimal
    | RaisedUnbounded
    | RaisedEmptyMin
    | RaisedIndexError
    | ZeroPivotReported
    | NegativeRowPivot
    | Pivoted

  datatype RoundResult = RoundResult(outcome: Outcome, tableau: Matrix)

  /** The pivot indices `(row, col)` of a round. The column prompt comes
      first, so the user's row is used only when both prompts succeeded, and
      the user's column whenever the column prompt did. */
  function Target(choice: Choice, row: nat, col: nat): (t: (int, int))
    ensures t.0 == if choice.Entered? then choice.row else row
    ensures t.1 == if choice.NothingEntered? then col else choice.col
  {
    match choice
    case Entered(c, r) => (r, c)
    case ColumnOnly(c) => (row, c)
    case NothingEntered => (row, col)
  }

  /** The indices `list[i]` accepts on a list of length `n`: a position
      counted from the front, or one counted from the back; any other index
      raises IndexError. */
  predicate ValidIndex(i: int, n: int)
    ensures ValidIndex(i, n) <==> (0 <= i < n || 0 <= i + n < n)
  {
    -n <= i < n
  }

  /** The position `list[i]` reads. */
  function Position(i: int, n: nat): (p: nat)
    requires ValidIndex(i, n)
    ensures p < n && (p == i || p == i + n)
  {
    if i < 0 then i + n else i
  }

  /** The outcome a suggestion-free decision ends the loop with. */
  function Final(d: Decision): Outcome
    requires !d.Suggest?
  {
    match d
    case Optimal => ReturnedOptimal
    case Unbounded => RaisedUnbounded
    case EmptyMin => RaisedEmptyMin
  }

  /** One round of the loop with the user's answer `choice`. */
  function Round(m: Matrix, choice: Choice): (res: RoundResult)
    requires Rectangular(m)
    ensures Rectangular(res.tableau) && |res.tableau| == |m| && Width(res.tableau) == Width(m)
    ensures res.outcome != Pivoted ==> res.tableau == m
    ensures res.outcome == Pivoted ==> AllCanonical(res.tableau)
    ensures res.outcome == ReturnedOptimal <==> Width(m) >= 2 && !HasNegativeCost(m)
    ensures res.outcome == RaisedUnbounded <==> Select(m).Unbounded?
    ensures res.outcome == RaisedEmptyMin <==> Select(m).EmptyMin?
    ensures Select(m).Suggest? ==>
      res.outcome in {RaisedIndexError, ZeroPivotReported, NegativeRowPivot, Pivoted}
  {
    match Select(m)
    case Suggest(sr, sc) =>
      var t := Target(choice, sr, sc);
      var n, w := |m|, Width(m);
      if !(ValidIndex(t.0, n) && ValidIndex(t.1, w)) then RoundResult(RaisedIndexError, m)
      else
        var row, col := Position(t.0, n), Position(t.1, w);
        if Value(m[row][col]) == 0.0 then RoundResult(ZeroPivotReported, m)
        else if t.0 < 0 then RoundResult(NegativeRowPivot, m)
        else RoundResult(Pivoted, PivotResult(m, row, col))
    case _ => RoundResult(Final(Select(m)), m)
  }

  /** A round that pivots does so on the entry its indices name, which is
      not 0, and leaves the tableau `pivot` computes; `PivotExact` and
      `PivotUnitColumn` then say what that tableau holds. */
  lemma RoundPivots(m: Matrix, choice: Choice)
    requires Rectangular(m) && Round(m, choice).outcome == Pivoted
    ensures var d := Select(m);
      var t := Target(choice, d.row, d.col);
      0 <= t.0 < |m| && ValidIndex(t.1, Width(m)) &&
      Value(m[t.0][Position(t.1, Width(m))]) != 0.0 &&
      Round(m, choice).tableau == PivotResult(m, t.0, Position(t.1, Width(m)))
  {
  }

  /** A round whose answers were not read pivots on the suggested entry,
      unless that entry is 0. */
  lemma RoundOnSuggestion(m: Matrix)
    requires Rectangular(m) && Select(m).Suggest?
    ensures var d := Select(m);
      Round(m, NothingEntered) ==
        if Value(m[d.row][d.col]) == 0.0 then RoundResult(ZeroPivotReported, m)
        else RoundResult(Pivoted, PivotResult(m, d.row, d.col))
  {
  }

  /** A round that reaches the prompts follows the indices they give: an
      index outside the tableau raises IndexError, a zero entry is reported
      and the tableau kept, and a nonzero entry is pivoted on when the row
      index is not negative. */
  lemma RoundOnChoice(m: Matrix, choice: Choice)
    requires Rectangular(m) && Select(m).Suggest?
    ensures var d := Select(m);
      var t := Target(choice, d.row, d.col);
      var res := Round(m, choice);
      var valid := ValidIndex(t.0, |m|) && ValidIndex(t.1, Width(m));
      (res.outcome == RaisedIndexError <==> !valid) &&
      (valid ==>
        var row, col := Position(t.0, |m|), Position(t.1, Width(m));
        (res.outcome == ZeroPivotReported <==> Value(m[row][col]) == 0.0) &&
        (res.outcome == NegativeRowPivot <==> t.0 < 0 && Value(m[row][col]) != 0.0) &&
        (t.0 >= 0 && Value(m[row][col]) != 0.0 ==>
          res == RoundResult(Pivoted, PivotResult(m, row, col))))
  {
  }

  /** One round of `simplex` on the caller's tableau. */
  method Step(m: array<seq<Num>>, choice: Choice) returns (outcome: Outcome)
    requires Rectangular(m[..])
    modifies m
    ensures RoundResult(outcome, m[..]) == Round(old(m[..]), choice)
  {
    var d := Select(m[..]);
    if !d.Suggest? {
      return Final(d);
    }
    var t := Target(choice, d.row, d.col);
    var n, w := m.Length, |m[0]|;
    if !(ValidIndex(t.0, n) && ValidIndex(t.1, w)) {
      return RaisedIndexError;
    }
    var row, col := Position(t.0, n), Position(t.1, w);
    if t.0 < 0 {
      outcome := if Value(m[row][col]) == 0.0 then ZeroPivotReported else NegativeRowPivot;
      return;
    }
    var ok := Pivot(m, row, col);
    outcome := if ok then Pivoted else ZeroPivotReported;
  }
}
