# Simplex-Helper pivoting core, in Dafny

This project models the pivoting core of Simplex-Helper (`simplex_helper.py`):

- `pivot(matrix, row, col)`: exact Gauss-Jordan reduction of a simplex tableau
  about one entry. The tableau is changed in place.
- The pivot-selection step at the top of each round of `simplex`: the entering
  column, the minimum-ratio row, and the optimal and unbounded decisions.
- One round of `simplex`. The user's pivot choice is a parameter of the round.

A tableau is a list of rows. The last row is the objective row and the last
entry of every row is the right-hand side. Entries are Python `int`s or
`fractions.Fraction`s.

- Module `PyNum` models them as `Num = Int(i) | Frac(q)`. A Fraction is
  represented by its exact rational value `q`.
- Python's mixed arithmetic is written out: `-`, `*`, floor division `//`
  (always an `int`), modulo `%` (the sign follows the divisor), `Fraction(x, p)`
  and `/`. It is proved against exact real arithmetic.
- A Fraction has "denominator 1" exactly when its value is an integer.

The modules:

- `Tableau`: the tableau type `seq<seq<Num>>`, rectangularity, and the real
  values of the entries.
- `Pivoting`:
  - the three steps of `pivot` as functions on rows: divide the pivot row,
    eliminate the pivot column from the other rows, turn integral Fractions
    back into `int`s;
  - `PivotResult`, the tableau those steps leave;
  - `RealPivot`, the textbook Gauss-Jordan pivot over the rationals, a
    reference definition;
  - lemmas: the pivot is exact, it leaves a unit column, it leaves no integral
    Fraction, and it is idempotent;
  - the method `Pivot`, which performs the steps on the caller's
    `array<seq<Num>>` and is proved to end in `PivotResult`.
- `Selection`: the entering column and the leaving row as functions:
  - `list.index(min(...))` is `IndexOf` and `MinValue`;
  - `min(range(...), key=...)` is `ArgMin` over `Ratio = Finite(v) | Infinite`;
  - the decision `Select` is `Optimal | Unbounded | EmptyMin | Suggest(row, col)`.
- `Controller`: one round of the loop.
  - `Round` is its specification and `Step` is the method on the caller's array.
  - The user's answer is a `Choice`. The `try`/`except ValueError` around the
    two prompts can leave one or both suggested indices in place.
  - Negative column indices, which Python counts from the end of the row, are
    modelled. So is the uncaught `IndexError` for an index out of range. A
    negative row index is not carried out (see "## Left out").
- `Examples`: the textbook tableau `[[1,1,1,0,4],[2,1,0,1,10],[-3,-2,0,0,0]]`,
  worked through one pivot to the optimum 12. Also two small tableaux on which
  the loop's unboundedness test gives a different answer from the textbook
  test.

The model follows the code where it departs from textbook simplex:

- **Unboundedness.** The loop raises "Linear program is unbounded" when the
  least-ratio row has right-hand side 0. The textbook condition is different:
  no positive entry in the entering column.
  - Rows with negative entries take part in the ratio test, with negative
    ratios.
  - So a degenerate bounded program is reported unbounded
    (`Examples.DegenerateReportedUnbounded`).
  - An unbounded column gets a pivot suggestion on a negative entry
    (`Examples.UnboundedColumnSuggested`).
- **Pivot indices.** Any in-range indices are accepted as a pivot, including
  the objective row and the right-hand-side column.

## Model

| member | source | states |
|---|---|---|
| PyNum.FloorDivInt | simplex_helper.py:43 | `a // b` on ints is the floor of the exact quotient: `q <= a/b < q + 1` |
| PyNum.ModInt | simplex_helper.py:43 | `a % b` on ints takes the sign of the divisor, has magnitude below it, and `a == b * (a // b) + a % b` |
| PyNum.ExactIntQuotient | simplex_helper.py:43 | when `x % p == 0` on ints, `x // p` is the exact quotient and equals Dafny's Euclidean `x / p` |
| PyNum.ModIntZeroIffDivides | simplex_helper.py:43 | Python's `x % p == 0` holds exactly when `p` divides `x` |
| PyNum.Sub | simplex_helper.py:52-54 | `x - y` has the exact difference as its value and is an `int` exactly when both operands are |
| PyNum.Mul | simplex_helper.py:52-54 | `x * y` has the exact product as its value and is an `int` exactly when both operands are |
| PyNum.FloorDiv | simplex_helper.py:43 | `x // p` is always an `int` and is the floor of the exact quotient, also for a Fraction operand |
| PyNum.Mod | simplex_helper.py:43 | `x % p` is `x` minus `p` times `x // p`, and is an `int` exactly when both operands are |
| PyNum.FracDiv | simplex_helper.py:43-45 | `Fraction(x, p)` and `x / p` are Fractions whose value times `p` is `x` |
| PyNum.ModZeroIffExact | simplex_helper.py:43 | `x % p == 0` exactly when the quotient is integral, and then `x // p` is that quotient: the int branch and the Fraction branch agree |
| PyNum.Normalize | simplex_helper.py:59-60 | replacing an integral Fraction by its numerator keeps the value, leaves no integral Fraction, and changes nothing else |
| PyNum.CanonicalUnique | simplex_helper.py:56-60 | two numbers in the form the pivot leaves, with equal values, are the same number |
| Pivoting.ExactDiv | simplex_helper.py:43 | `x // p if x % p == 0 else Fraction(x, p)` is the exact quotient, and an `int` exactly when that quotient is integral |
| Pivoting.DivideEntry | simplex_helper.py:42-45 | each entry of the new pivot row is the old entry divided exactly by the pivot |
| Pivoting.DivideRow | simplex_helper.py:42-45 | the new pivot row has the old length and holds the old entries divided by the pivot |
| Pivoting.EliminateEntry | simplex_helper.py:51-54 | with the pivot-row entry 1, an entry becomes `x - y * c`, on the int path (`c // 1`) and the Fraction path alike |
| Pivoting.EliminateRow | simplex_helper.py:51-54 | every entry of another row becomes `old[r][j] - old[r][col] * newPivotRow[j]` |
| Pivoting.PivotRow | simplex_helper.py:42-45 | after the division, the pivot entry is 1, and the int 1 when it is an int |
| Pivoting.Reduced | simplex_helper.py:42-54 | the division and elimination keep the tableau rectangular with the same row count and width |
| Pivoting.NormalizeRow | simplex_helper.py:56-60 | the conversion keeps every value of a row and leaves no integral Fraction in it |
| Pivoting.PivotResult | simplex_helper.py:24-62 | the pivoted tableau has the old shape and no Fraction with denominator 1 |
| Pivoting.PivotRowValue | simplex_helper.py:43-45 | the new pivot row holds the old pivot row divided entrywise by the pivot |
| Pivoting.OtherRowValue | simplex_helper.py:48-54 | every other row `r` holds `old[r][j] - old[r][col] * newPivotRow[j]` |
| Pivoting.PivotExact | simplex_helper.py:39-60 | the values the pivot leaves are exactly those of Gauss-Jordan reduction over the rationals, row by row |
| Pivoting.PivotUnitColumn | simplex_helper.py:39-60 | after a pivot on a nonzero entry, the pivot entry is the int 1 and every other entry of its column is the int 0 |
| Pivoting.PivotIdempotent | simplex_helper.py:24-62 | pivoting a second time on the same entry changes nothing |
| Pivoting.Pivot | simplex_helper.py:24-62 | a zero pivot raises before any row is reassigned and leaves the tableau as it was; otherwise the caller's tableau becomes `PivotResult` |
| Pivoting.EliminateInPlace | simplex_helper.py:48-54 | every row but the pivot row is replaced by its eliminated row; the pivot row stays |
| Pivoting.NormalizeInPlace | simplex_helper.py:56-60 | every row of the caller's tableau is replaced by its normalised row |
| Selection.Costs | simplex_helper.py:76 | `matrix[-1][:-1]`: one value per column of the objective row except the right-hand side, in order |
| Selection.MinValue | simplex_helper.py:76 | `min` of a non-empty list is an element of it and no element is smaller |
| Selection.IndexOf | simplex_helper.py:76 | `list.index(v)` is a position holding `v` with no earlier position holding it |
| Selection.EnteringColumn | simplex_helper.py:76 | the candidate column lies before the right-hand-side column |
| Selection.EnteringColumnIsFirstMinimum | simplex_helper.py:76 | the candidate column holds a least objective coefficient, and every earlier coefficient is strictly larger |
| Selection.RatioLess | simplex_helper.py:81 | Python's `<` on ratio keys: `float('inf')` is below no key, itself included, and every finite ratio is below it |
| Selection.RatioLessIsStrictTotalOrder | simplex_helper.py:81 | that comparison is irreflexive, asymmetric, transitive and total, so `min` with a key has a least key |
| Selection.RowRatio | simplex_helper.py:81 | a row's key is infinite exactly when its entry in the column is 0; otherwise it is the ratio that, times the entry, gives the right-hand side |
| Selection.ArgMin | simplex_helper.py:81 | `min` with a key gives a position whose key no other key undercuts, and every earlier key is strictly larger |
| Selection.LeavingRow | simplex_helper.py:81 | the candidate row is a constraint row of least ratio, zero entries counting as infinite, and the first such row |
| Selection.Select | simplex_helper.py:76-83 | optimal exactly when no objective coefficient before the right-hand side is negative; `min` of an empty sequence exactly when the width is below 2 or a non-optimal tableau has no constraint row |
| Selection.UnboundedIffZeroRhs | simplex_helper.py:81-83 | "unbounded" exactly when some coefficient is negative and the least-ratio row has right-hand side 0 |
| Selection.SuggestionIsMinimal | simplex_helper.py:76-83 | a suggestion names the first most negative coefficient and the first least-ratio row, whose right-hand side is not 0 |
| Selection.ZeroSuggestionMeansZeroColumn | simplex_helper.py:81 | the suggested entry is 0 exactly when every constraint entry of the column is 0 |
| Controller.Target | simplex_helper.py:86-90 | the user's row is used only when both prompts parsed; the user's column whenever the column prompt parsed; otherwise the suggested index stays |
| Controller.ValidIndex | simplex_helper.py:39 | `matrix[row][col]` accepts an index exactly when it, or it counted from the end, is a position of the list; otherwise IndexError |
| Controller.Position | simplex_helper.py:39 | a Python index in `-n .. n-1` reads position `i` or `i + n` |
| Controller.Round | simplex_helper.py:74-98 | a round returns the tableau exactly when no objective coefficient is negative, raises "unbounded" or the empty-`min` error exactly when the selection does, keeps the shape, changes the tableau only by a pivot, and leaves a pivoted tableau canonical |
| Controller.RoundPivots | simplex_helper.py:86-98 | a round that pivots used a nonnegative row, a valid column and a nonzero entry, and left `PivotResult` |
| Controller.RoundOnSuggestion | simplex_helper.py:81-98 | with no answer read, the round pivots on the suggested entry, or reports a zero pivot with the tableau unchanged |
| Controller.RoundOnChoice | simplex_helper.py:84-98 | once a pivot is suggested, the round raises IndexError exactly when an index is out of range; otherwise it reports a zero pivot exactly when the named entry is 0, stops without pivoting exactly when the entry is nonzero and the row index is negative, and pivots on a nonzero entry at a row index >= 0, leaving `PivotResult` |
| Controller.Step | simplex_helper.py:74-98 | the round on the caller's tableau ends with the outcome and tableau `Round` gives |
| Examples.TextbookSuggestion | simplex_helper.py:76-83 | on the textbook tableau the suggestion is row 0, column 0 |
| Examples.TextbookPivot | simplex_helper.py:24-62 | pivoting the textbook tableau on (0, 0) gives `[[1,1,1,0,4],[0,-1,-2,1,2],[0,1,3,0,12]]` |
| Examples.TextbookRound | simplex_helper.py:74-98 | accepting the suggestion pivots the textbook tableau to that result |
| Examples.TextbookSecondRound | simplex_helper.py:76-78 | the next round returns the tableau as optimal, with 12 in the objective row's right-hand side |
| Examples.DegenerateReportedUnbounded | simplex_helper.py:81-83 | a bounded program with a zero right-hand side on the least-ratio row is reported unbounded |
| Examples.UnboundedColumnSuggested | simplex_helper.py:81-83 | a column with no positive entry gets a pivot suggestion instead of "unbounded" |

## Left out

- `main` (console input with `eval`/`int`, and the solution report) and
  `pretty_print` are I/O and formatting. They are not part of this model.
- The prompts and messages of `simplex` are I/O. The user's answer is the
  `Choice` parameter of a round.
- The `while True` loop of `simplex` is modelled one round at a time. Its
  termination is not modelled: there is no anti-cycling rule, and the user
  picks the pivots.
- Ratios are exact rationals and infinity is a separate value. Python
  computes `int / int` as a float, so the model ignores rounding that could
  change the tie-breaking between rows.
- Controller.Round: a pivot on a nonzero entry at a negative row index is
  reported as `NegativeRowPivot`, and the tableau is left as it is. In Python
  the test `r == row` never holds for a negative `row`, so the elimination
  loop also visits the pivot row's own position `p`:
  - Rows before `p` are eliminated as usual.
  - Row `p` becomes all zeros.
  - With `row == -1`, `p` is the last row, so nothing follows. `pivot`
    returns normally with the objective row all zeros. The next round finds
    no negative coefficient and returns that tableau as optimal.
  - With `row <= -2` and an `int` pivot, the first later row with an `int` in
    the pivot column raises ZeroDivisionError (`x % 0`). The loop catches it.
    The rows before that one stay changed, that row and the ones after it
    stay as they were, and no Fraction is turned back into an `int`.
  - With a Fraction pivot, or later rows holding Fractions in the pivot
    column, nothing raises. Those rows keep their values.
- Pivoting.EliminateEntry: the value is stated only for a pivot-row entry of
  1. That is the only case `pivot` produces.
- Ragged tableaux are excluded by the precondition that all rows have the
  width of the first. Python would raise IndexError or compute on mismatched
  rows.
- The model does not represent aliasing between rows. Every row the pivot
  reassigns is a new list, so nothing can observe it.
- Python's `bool` being an `int`, and any number type other than `int` and
  Fraction, are not modelled.
