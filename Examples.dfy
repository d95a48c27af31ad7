/** Worked tableaux: the textbook example of a two-variable maximisation, and
    two small tableaux on which the loop's unboundedness test differs from the
    textbook one (an unbounded direction is a column with no positive entry). */
module Examples {
  import opened PyNum
  import opened Tableau
  import opened Pivoting
  import opened Selection
  import opened Controller

  /** maximise 3x + 2y with x + y <= 4 and 2x + y <= 10. */
  function Textbook(): Matrix
  {
    [[Int(1), Int(1), Int(1), Int(0), Int(4)], [Int(2), Int(1), Int(0), Int(1), Int(10)], [Int(-3), Int(-2), Int(0), Int(0), Int(0)]]
  }

  /** The tableau after pivoting on row 0, column 0. */
  function TextbookPivoted(): Matrix
  {
    [[Int(1), Int(1), Int(1), Int(0), Int(4)], [Int(0), Int(-1), Int(-2), Int(1), Int(2)], [Int(0), Int(1), Int(3), Int(0), Int(12)]]
  }

  /** The loop suggests column 0 (coefficient -3 is the least) and row 0
      (ratio 4 beats ratio 10 / 2 = 5). */
  lemma TextbookSuggestion()
    ensures Select(Textbook()) == Suggest(0, 0)
  {
    var m := Textbook();
    var costs := Costs(m);
    assert costs == [-3.0, -2.0, 0.0, 0.0];
    var v := MinValue(costs);
    assert v <= costs[0];
    var k :| 0 <= k < 4 && costs[k] == v;
    assert costs[k] >= -3.0;
    assert EnteringColumn(m) == 0;
    assert Ratios(m, 0) == [Finite(4.0), Finite(5.0)];
    assert LeavingRow(m, 0) == 0;
  }

  /** Pivoting on row 0, column 0 divides row 0 by the entry 1. */
  lemma TextbookPivotRow0()
    ensures PivotResult(Textbook(), 0, 0)[0] == TextbookPivoted()[0]
  {
    var m, e := Textbook(), TextbookPivoted();
    var res := PivotResult(m, 0, 0);
    forall j | 0 <= j < 5
      ensures res[0][j] == e[0][j]
    {
      PivotRowValue(m, 0, 0, j);
      CanonicalUnique(res[0][j], e[0][j]);
    }
  }

  /** ... and subtracts 2 times row 0 from row 1 and -3 times row 0 from the objective row. */
  lemma TextbookPivotOther(i: nat)
    requires 1 <= i < 3
    ensures PivotResult(Textbook(), 0, 0)[i] == TextbookPivoted()[i]
  {
    var m, e := Textbook(), TextbookPivoted();
    var res := PivotResult(m, 0, 0);
    forall j | 0 <= j < 5
      ensures res[i][j] == e[i][j]
    {
      OtherRowValue(m, 0, 0, i, j);
      CanonicalUnique(res[i][j], e[i][j]);
    }
  }

  lemma TextbookPivot()
    ensures PivotResult(Textbook(), 0, 0) == TextbookPivoted()
  {
    TextbookPivotRow0();
    TextbookPivotOther(1);
    TextbookPivotOther(2);
  }

  /** No coefficient of the pivoted objective row is negative. */
  lemma TextbookOptimal()
    ensures Select(TextbookPivoted()) == Optimal
  {
    var m := TextbookPivoted();
    assert Costs(m) == [0.0, 1.0, 3.0, 0.0];
  }

  /** Accepting the suggestion pivots once ... */
  lemma TextbookRound()
    ensures Round(Textbook(), NothingEntered) == RoundResult(Pivoted, TextbookPivoted())
  {
    TextbookSuggestion();
    TextbookPivot();
    RoundOnSuggestion(Textbook());
  }

  /** ... and the next round returns the optimum 12, in the right-hand side of
      the objective row, whatever the user would have answered. */
  lemma TextbookSecondRound(choice: Choice)
    ensures Round(TextbookPivoted(), choice) == RoundResult(ReturnedOptimal, TextbookPivoted())
    ensures TextbookPivoted()[2][4] == Int(12)
  {
    TextbookOptimal();
  }

  /** maximise x with x + s = 0 and slack s, i.e. x <= 0: the optimum is 0
      and column 0 has the positive entry 1, yet the least ratio 0 / 1 sits
      on a zero right-hand side, and the loop raises "Linear program is
      unbounded". */
  lemma DegenerateReportedUnbounded()
    ensures Select([[Int(1), Int(1), Int(0)], [Int(-1), Int(0), Int(0)]]) == Unbounded
  {
    var m := [[Int(1), Int(1), Int(0)], [Int(-1), Int(0), Int(0)]];
    var costs := Costs(m);
    assert costs == [-1.0, 0.0];
    var v := MinValue(costs);
    assert v <= costs[0];
    assert EnteringColumn(m) == 0;
    assert LeavingRow(m, 0) == 0;
  }

  /** maximise x with -x + s = 5 and slack s, i.e. -x <= 5: x grows without
      bound and column 0 has no positive entry, yet the loop suggests a pivot
      on the entry -1 (its ratio 5 / -1 = -5 is the least). */
  lemma UnboundedColumnSuggested()
    ensures Select([[Int(-1), Int(1), Int(5)], [Int(-1), Int(0), Int(0)]]) == Suggest(0, 0)
  {
    var m := [[Int(-1), Int(1), Int(5)], [Int(-1), Int(0), Int(0)]];
    var costs := Costs(m);
    assert costs == [-1.0, 0.0];
    var v := MinValue(costs);
    assert v <= costs[0];
    assert EnteringColumn(m) == 0;
    assert LeavingRow(m, 0) == 0;
  }
}
