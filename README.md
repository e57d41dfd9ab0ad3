# GameMatrix solver, modelled in Dafny

GameMatrix is a small WPF program that solves two-player zero-sum matrix
games. Player A picks a row of an integer payoff matrix, player B picks a
column, and B pays A the entry at their crossing. When the user presses
"solve", the window:

1. computes the two bounds of the game:
   - the maximin: the largest row minimum, what A can guarantee;
   - the minimax: the smallest column maximum, what B can hold A to.
2. lists every saddle point, meaning every entry that is both the minimum
   of its row and the maximum of its column, in row-major order.
3. if there is none:
   - prunes rows and columns once, when the matrix is larger than 2x2. A
     column is dropped when another column lies entrywise at or below it.
     A row is dropped in the direction the program's `IsRowDominated` call
     takes: when another row lies at or below it, which is the reverse of
     game-theoretic dominance (see "Findings");
   - if a 2x2 game is left, solves it in mixed strategies with the
     closed-form formulas;
   - otherwise reports that the matrix cannot be reduced to 2x2.

The project has two layers.

- **Value layer.** A matrix is a `seq<seq<int>>` (`Matrices.Grid`). The
  bounds, saddle points, dominance tests, reductions, 2x2 formulas and the
  whole decision procedure are written as functions over it, and the lemmas
  are proved about them. The modules are:
  - `Matrices`: bounds.
  - `Saddles`: saddle points.
  - `Dominance`: dominance and pruning.
  - `TwoByTwo`: the 2x2 formulas.
  - `Game`: the decision procedure.
  - `Orders`: a small lemma about strict orders on a finite range.
- **Imperative layer.** `GameMatrix.MainWindow` is a class with the
  window's `rows` and `columns` fields. Its solver methods work on an
  `array2<int>` with the same nested loops, running minima and maxima,
  marking arrays and copy cursors as the program. Each solver method
  takes the matrix's contents as a ghost `Grid` (`Holds(matrix, g)`). It
  is proved to compute the value-layer function of that grid, and to
  leave the fields in the stated state. The constructor and
  `ParseMatrixDimensions` take no matrix; they set the fields from
  constants and from the entered dimensions.
- **Who changes the fields.** The constructor, `ParseMatrixDimensions`
  and `PruneMarked` assign `rows` and `columns`. `PruneMarked` is reached
  through `ReduceMatrix` and `ReduceMatrixIntended`, so `SolveGame`,
  `SolveWithoutSaddle` and their `Intended` twins change the fields
  through them, and only when they prune. The other methods leave the
  fields alone.

Verifying the natural contracts exposed two defects in the program; see
"Findings". The model keeps both versions of each affected member:

- **As written.** Members without a suffix follow the program. This
  covers `Dominance.RowMarks`, `Dominance.Reduce`,
  `TwoByTwo.PrintedStrategies`, `Game.Candidate`, `Game.CandidateVerdict`
  and `Game.Solve`. On the imperative side it covers
  `MainWindow.MarkDominatedRows`, `ReduceMatrix`, `SolveWithoutSaddle`
  and `SolveGame`. Rows are marked when another row lies below them, and
  p is reported for player A.
- **Row correction only.** `Dominance.RowMarkedIntended`,
  `RowMarksIntended`, `SomeRowSurvivesIntended`, `KeptRowsAboveIntended`,
  `ReduceIntended` and `IntendedKeepsValues`, `Game.CandidateIntended` and
  the `ThreeByTwo...Intended` examples, and
  `MainWindow.MarkDominatedRowsIntended` and `ReduceMatrixIntended`. These
  drop the row that lies below another.
- **Label correction only.** `TwoByTwo.Equilibrium` and
  `Game.CandidateVerdictIntended` report each probability for the player
  it belongs to.
- **Both corrections.** `Game.SolveIntended`, `Game.MixedVerdictIntended`,
  `MainWindow.SolveWithoutSaddleIntended` and `SolveGameIntended` combine
  the two.

`Game.PipelinesAgree` relates the two. They report the same bounds and the
same saddle points. Their mixed verdicts differ only by the swapped labels
whenever no pruning happens or no row lies below another;
`Dominance.RowRulesAgree` shows the second condition is exactly when the
two row rules mark the same rows. The
matrix `[[3,0],[0,3],[-1,-1]]` shows where they part: the program gives up,
and the corrected solver finds the 1/2-1/2 solution.

## Model

| member | source | states |
|---|---|---|
| Matrices.MinOf | GameMatrix/MainWindow.xaml.cs:321-326 | the running row minimum is at most every entry and equal to one of them |
| Matrices.MaxOf | GameMatrix/MainWindow.xaml.cs:304-309 | the running column maximum is at least every entry and equal to one of them |
| Matrices.RowMins | GameMatrix/MainWindow.xaml.cs:165-175 | one entry per row, each the minimum of that row |
| Matrices.ColMaxs | GameMatrix/MainWindow.xaml.cs:177-187 | one entry per column, each the maximum of that column |
| Matrices.Maximin | GameMatrix/MainWindow.xaml.cs:316-331 | the maximin is some row's minimum, no row minimum exceeds it, and it is an entry of the matrix |
| Matrices.Minimax | GameMatrix/MainWindow.xaml.cs:299-314 | the minimax is some column's maximum, no column maximum is below it, and it is an entry of the matrix |
| Matrices.MaximinLeMinimax | GameMatrix/MainWindow.xaml.cs:299-331 | for every non-empty matrix, maximin <= minimax |
| Saddles.SaddlesBeforeSound | GameMatrix/MainWindow.xaml.cs:190-199 | the cells the scan has collected before any position are saddle points located before that position, strictly increasing in row-major order |
| Saddles.SaddlesBeforeComplete | GameMatrix/MainWindow.xaml.cs:190-199 | every saddle point before a position is among the cells collected up to it |
| Saddles.PassCell | GameMatrix/MainWindow.xaml.cs:194-197 | one scan step keeps the list sound, whether or not it appends the current cell |
| Saddles.SaddlePoints | GameMatrix/MainWindow.xaml.cs:159-202 | the list is strictly increasing in row-major order (so it has no repeats), holds only saddle points, and holds every saddle point |
| Saddles.SaddleValue | GameMatrix/MainWindow.xaml.cs:194 | a saddle point's value equals both the maximin and the minimax |
| Saddles.SaddlePointsShareValue | GameMatrix/MainWindow.xaml.cs:107-109 | when any saddle point exists, maximin == minimax and every listed saddle carries that value |
| Dominance.RowBelowIsStrictOrder | GameMatrix/MainWindow.xaml.cs:263-274 | "row i is entrywise <= row k, strictly somewhere" is irreflexive and asymmetric (a strict order), and so is its converse |
| Dominance.ColumnBelowIsStrictOrder | GameMatrix/MainWindow.xaml.cs:277-288 | the same comparison over columns is irreflexive and asymmetric (a strict order) |
| Dominance.RowMarks | GameMatrix/MainWindow.xaml.cs:210-220 | as written: row k is marked iff some other row i is entrywise <= row k and strictly less somewhere, so the better row is the one marked |
| Dominance.RowMarksIntended | GameMatrix/MainWindow.xaml.cs:210-220 | corrected: row k is marked iff it is below some other row |
| Dominance.RowRulesAgree | GameMatrix/MainWindow.xaml.cs:210-220 | the as-written and the corrected row marks coincide iff no row lies entrywise at or below another and strictly below somewhere |
| Dominance.ColumnMarks | GameMatrix/MainWindow.xaml.cs:222-232 | column l is marked iff some other column j is below it |
| Dominance.CountMarked | GameMatrix/MainWindow.xaml.cs:235-236 | the marked count is at most the length, and zero exactly when nothing is marked |
| Dominance.Survivors | GameMatrix/MainWindow.xaml.cs:240-253 | there are length minus marked-count kept indices, each in range and unmarked |
| Dominance.SurvivorsIncreasing | GameMatrix/MainWindow.xaml.cs:240-253 | the kept indices are in their original relative order |
| Dominance.SurvivorsOfUnmarked | GameMatrix/MainWindow.xaml.cs:240-253 | with nothing marked, the kept indices are 0, 1, 2, ... |
| Dominance.SurvivorPositions | GameMatrix/MainWindow.xaml.cs:239-253 | the copy cursor before index j equals the number of kept indices below j, and a kept index is written at that cursor |
| Dominance.Submatrix | GameMatrix/MainWindow.xaml.cs:237-253 | cell (r, c) of the result is the input at the r-th kept row and the c-th kept column |
| Dominance.SomeRowSurvives | GameMatrix/MainWindow.xaml.cs:210-220 | as written: at or below every row there is a row left unmarked |
| Dominance.SomeRowSurvivesIntended | GameMatrix/MainWindow.xaml.cs:210-220 | corrected: at or above every row there is a row left unmarked |
| Dominance.SomeColumnSurvives | GameMatrix/MainWindow.xaml.cs:222-232 | at or below every column there is a column left unmarked |
| Dominance.Prune | GameMatrix/MainWindow.xaml.cs:234-253 | with at least one unmarked row, the pruned matrix is non-empty and rectangular, and has the unmarked counts as dimensions |
| Dominance.PruneLayout | GameMatrix/MainWindow.xaml.cs:234-253 | the pruned matrix is the submatrix of the kept rows and columns, with at least one of each |
| Dominance.Reduce | GameMatrix/MainWindow.xaml.cs:205-260 | as written: the reduction is non-empty and rectangular, with rows - marked rows rows and columns - marked columns columns |
| Dominance.ReduceIntended | GameMatrix/MainWindow.xaml.cs:205-260 | corrected: the same, with rows marked by the corrected rule |
| Dominance.ReduceWithoutDominance | GameMatrix/MainWindow.xaml.cs:234-259 | when no row or column is below another, both reductions return the matrix unchanged |
| Dominance.KeptColumnsBelow | GameMatrix/MainWindow.xaml.cs:222-232 | every column has a kept column entrywise at or below it |
| Dominance.KeptRowsAboveIntended | GameMatrix/MainWindow.xaml.cs:210-220 | corrected: every row has a kept row entrywise at or above it |
| Dominance.SubmatrixKeepsMaximin | GameMatrix/MainWindow.xaml.cs:234-253 | keeping a row above every row and a column below every column preserves the maximin |
| Dominance.SubmatrixKeepsMinimax | GameMatrix/MainWindow.xaml.cs:234-253 | under the same conditions the minimax is preserved |
| Dominance.IntendedKeepsValues | GameMatrix/MainWindow.xaml.cs:205-260 | the corrected reduction has the same maximin and minimax as the input |
| TwoByTwo.SolveTwoByTwo | GameMatrix/MainWindow.xaml.cs:290-297 | the denominator is zero iff a-b-c+d == 0; otherwise p is the one probability that makes A indifferent between the rows, and q the one that makes B indifferent between the columns |
| TwoByTwo.IndifferenceIsLinear | GameMatrix/MainWindow.xaml.cs:294-295 | each indifference condition is the linear equation y*(a-b-c+d) == d-b (resp. x*(a-b-c+d) == d-c) |
| TwoByTwo.ZeroDenominatorHasNoUniqueP | GameMatrix/MainWindow.xaml.cs:294-295 | when a-b-c+d == 0, either every probability or none makes a player indifferent, so no single answer exists |
| TwoByTwo.SaddleFreeIsInterior | GameMatrix/MainWindow.xaml.cs:139-142 | a 2x2 game with no saddle point has a non-zero denominator, and p and q strictly between 0 and 1 |
| TwoByTwo.Equilibrium | GameMatrix/MainWindow.xaml.cs:294-296 | corrected labels: no answer iff the denominator is zero; otherwise A's probability leaves B indifferent and B's leaves A indifferent |
| TwoByTwo.PrintedStrategies | GameMatrix/MainWindow.xaml.cs:294-296 | as printed: no answer iff the denominator is zero; otherwise the value shown for A leaves A indifferent, and the value shown for B leaves B indifferent |
| TwoByTwo.PrintedIsSwapped | GameMatrix/MainWindow.xaml.cs:294-296 | the printed pair and the corrected pair fail on the same inputs, and otherwise the printed pair is the corrected pair with its two values swapped |
| TwoByTwo.PrintedLabelsSwapped | GameMatrix/MainWindow.xaml.cs:294-296 | (2,5,4,3) gives p = 1/2 and q = 1/4, printed as (1/2, 1/4) while the corrected pair is (1/4, 1/2); p, the value printed for A, does not leave B indifferent, and q does |
| TwoByTwo.DegenerateExample | GameMatrix/MainWindow.xaml.cs:294-295 | (2,4,1,3) has a zero denominator and no answer |
| Game.Candidate | GameMatrix/MainWindow.xaml.cs:133-137 | as written: the matrix handed on is non-empty, rectangular and no larger than the input |
| Game.CandidateIntended | GameMatrix/MainWindow.xaml.cs:133-137 | corrected: the same, for the intended reduction |
| Game.CandidateVerdict | GameMatrix/MainWindow.xaml.cs:139-147 | as printed: without saddle points the verdict is never pure; a mixed verdict is about the candidate itself, which is 2x2 |
| Game.CandidateVerdictIntended | GameMatrix/MainWindow.xaml.cs:139-147 | corrected labels: the same two guarantees |
| Game.Report | GameMatrix/MainWindow.xaml.cs:101-148 | the bounds are the maximin and the minimax with maximin <= minimax; the verdict is pure iff some saddle point exists, then the bounds are equal; otherwise it is the verdict of the branch without saddle points |
| Game.Solve | GameMatrix/MainWindow.xaml.cs:101-148 | as written: maximin <= minimax; the verdict is pure iff some saddle point exists, and then the two bounds are equal |
| Game.SolveIntended | GameMatrix/MainWindow.xaml.cs:101-148 | corrected: the same three guarantees |
| Game.SolveReportsBounds | GameMatrix/MainWindow.xaml.cs:101-109 | for both solvers the reported bounds are the maximin and the minimax, each an entry of the matrix; the verdict follows the branch on the saddle list |
| Game.PureVerdict | GameMatrix/MainWindow.xaml.cs:107-127 | a pure verdict lists exactly the saddle points, non-empty and in row-major order, each carrying the common value; the corrected solver gives the same verdict |
| Game.MixedVerdict | GameMatrix/MainWindow.xaml.cs:129-143 | as written: a mixed verdict has no saddle point; its game is 2x2, equal to the input (when 2x2) or to its as-written reduction; the value shown for A leaves A indifferent and the value shown for B leaves B indifferent |
| Game.MixedVerdictIntended | GameMatrix/MainWindow.xaml.cs:129-143 | corrected: the game is the input or its intended reduction, and each player's probability leaves the other player indifferent |
| Game.UnsolvableVerdict | GameMatrix/MainWindow.xaml.cs:139-147 | for both solvers: "cannot reduce" iff no saddle point and the candidate is not 2x2; "degenerate" iff no saddle point and a 2x2 candidate with a zero denominator |
| Game.CandidateVerdictRelabelled | GameMatrix/MainWindow.xaml.cs:294-296 | on one candidate, the printed verdict is the corrected verdict with the two probabilities swapped |
| Game.PipelinesAgree | GameMatrix/MainWindow.xaml.cs:205-260 | both solvers report the same bounds and the same pure verdicts; with no pruning, or when no row lies below another (so both row rules mark the same rows), their verdicts differ only by the swapped labels |
| Game.TwoByTwoSaddleFree | GameMatrix/MainWindow.xaml.cs:159-202 | a 2x2 matrix has no saddle point iff none of its four cells is both the smaller entry of its row and the larger entry of its column |
| Game.TwoByTwoWithoutSaddleIsMixed | GameMatrix/MainWindow.xaml.cs:129-143 | a 2x2 game without a saddle point is solved as itself, with both probabilities strictly between 0 and 1; the program prints the same pair with the labels swapped |
| Game.ThreeByTwoGivesUp | GameMatrix/MainWindow.xaml.cs:133-147 | as written, [[3,0],[0,3],[-1,-1]] has no saddle point, its reduction is a single row, and the solver reports that it cannot reduce to 2x2 |
| Game.ThreeByTwoSolved | GameMatrix/MainWindow.xaml.cs:129-143 | with the corrections, [[3,0],[0,3],[-1,-1]] is solved as [[3,0],[0,3]] with both players at 1/2 |
| Game.RowPruningDiscardsBestRows | GameMatrix/MainWindow.xaml.cs:215-217 | as written, the reduction keeps only the worst row, lowers the maximin from 0 to -1 and the solver gives up; the corrected rule keeps the values and solves the game |
| GameMatrix.MainWindow.constructor | GameMatrix/MainWindow.xaml.cs:14-21 | a new window starts at 2 rows and 2 columns |
| GameMatrix.MainWindow.ParseMatrixDimensions | GameMatrix/MainWindow.xaml.cs:44-58 | accepts iff both dimensions lie in 2..20, and then stores them; otherwise the fields are unchanged |
| GameMatrix.MainWindow.RowMinimum | GameMatrix/MainWindow.xaml.cs:168-173 | the loop's result is the minimum of row i |
| GameMatrix.MainWindow.ColumnMaximum | GameMatrix/MainWindow.xaml.cs:180-185 | the loop's result is the maximum of column j |
| GameMatrix.MainWindow.CalculateMinimax | GameMatrix/MainWindow.xaml.cs:299-314 | returns the minimax of the matrix |
| GameMatrix.MainWindow.CalculateMaximin | GameMatrix/MainWindow.xaml.cs:316-331 | returns the maximin of the matrix |
| GameMatrix.MainWindow.RowMinima | GameMatrix/MainWindow.xaml.cs:165-175 | a new array holding every row's minimum |
| GameMatrix.MainWindow.ColumnMaxima | GameMatrix/MainWindow.xaml.cs:177-187 | a new array holding every column's maximum |
| GameMatrix.MainWindow.ScanRow | GameMatrix/MainWindow.xaml.cs:190-199 | scanning row i extends the saddle list from the cells before row i to the cells before row i+1 |
| GameMatrix.MainWindow.FindSaddlePoints | GameMatrix/MainWindow.xaml.cs:159-202 | returns exactly the saddle-point list of the matrix (exact, row-major, no repeats) |
| GameMatrix.MainWindow.IsRowDominated | GameMatrix/MainWindow.xaml.cs:263-274 | true iff row i is entrywise <= row k and strictly less in some column |
| GameMatrix.MainWindow.IsColumnDominated | GameMatrix/MainWindow.xaml.cs:277-288 | true iff column j is entrywise <= column l and strictly less in some row |
| GameMatrix.MainWindow.MarkDominatedRows | GameMatrix/MainWindow.xaml.cs:210-220 | as written: the loop, testing each pair the way the program does, leaves exactly the as-written row marks, despite the already-marked guard |
| GameMatrix.MainWindow.MarkDominatedRowsIntended | GameMatrix/MainWindow.xaml.cs:210-220 | corrected: the same loop with the pair tested the other way leaves exactly the corrected row marks |
| GameMatrix.MainWindow.MarkDominatedColumns | GameMatrix/MainWindow.xaml.cs:222-232 | column l is marked iff some other column is below it, despite the already-marked guard |
| GameMatrix.MainWindow.CopyKept | GameMatrix/MainWindow.xaml.cs:239-253 | the copy loop fills a new array with the submatrix of kept rows and columns |
| GameMatrix.MainWindow.CopyRow | GameMatrix/MainWindow.xaml.cs:244-251 | one row's kept cells land left to right in row newRow, and no other row changes |
| GameMatrix.MainWindow.CopyUnmarked | GameMatrix/MainWindow.xaml.cs:234-253 | for any row marks held in the marking array, the new array has the unmarked counts as dimensions (each at least 1) and holds the pruned matrix |
| GameMatrix.MainWindow.ReduceMatrix | GameMatrix/MainWindow.xaml.cs:205-260 | as written: returns a new array holding the as-written reduction and sets rows/columns to its size; the input array is not modified |
| GameMatrix.MainWindow.ReduceMatrixIntended | GameMatrix/MainWindow.xaml.cs:205-260 | corrected: the same, holding the intended reduction |
| GameMatrix.MainWindow.PruneMarked | GameMatrix/MainWindow.xaml.cs:222-257 | given row marks with at least one row left, marks the columns, returns a new array holding the pruned matrix and sets rows/columns to its size |
| GameMatrix.MainWindow.SolveWithoutSaddle | GameMatrix/MainWindow.xaml.cs:129-148 | as written: reduces only when larger than 2x2, then gives the as-printed verdict on the candidate; the fields change iff it reduced |
| GameMatrix.MainWindow.SolveWithoutSaddleIntended | GameMatrix/MainWindow.xaml.cs:129-148 | corrected: the same with the intended reduction and labels |
| GameMatrix.MainWindow.SolveGame | GameMatrix/MainWindow.xaml.cs:97-148 | as written: the solution equals Game.Solve of the matrix; the fields change only when there is no saddle point and the matrix was larger than 2x2, and then hold the size of the as-written reduction |
| GameMatrix.MainWindow.SolveGameIntended | GameMatrix/MainWindow.xaml.cs:97-148 | corrected: the solution equals Game.SolveIntended of the matrix, with the same rule for the fields |

## Left out

- The WPF plumbing is not modelled: `ManualFill_Click`, `RandomFill_Click`, `CreateMatrixGrid`, the text-box grid, message boxes and writing the result text. These are user interface only.
- `GetMatrixValues` (reading cells with `int.Parse`, and the `FormatException` path) is not modelled. The matrix is an input to `SolveGame`, so text parsing is outside the model.
- GameMatrix.MainWindow.ParseMatrixDimensions: takes the two dimensions as integers. `int.TryParse` on the text boxes and the message box are not modelled.
- The random fill (`System.Random`) is not modelled. It is nondeterministic and does not affect the solver.
- The result string and the `F2` rounding are not modelled. The verdict is a datatype carrying the same information.
- The bound labels at line 104 are not modelled. The text calls the minimax the lower price and the maximin the upper price; this is a presentation slip. The model reports the values under their right names.
- C# `double` arithmetic is not modelled. The probabilities are exact `real`s. A zero denominator, which yields NaN or infinity in the program, is the explicit outcome `Unsolvable(DegenerateTwoByTwo)`.
- 32-bit arithmetic is not modelled. Integers are unbounded, so the overflow of `a - b - c + d` is absent.
- GameMatrix.MainWindow.RowMinimum: the running minimum is seeded with the row's first entry rather than `int.MaxValue`. `ColumnMaximum`, `CalculateMinimax` and `CalculateMaximin` use the same first-entry seed in place of `int.MaxValue`/`int.MinValue`. This gives the same result on the non-empty ranges the program uses.
- GameMatrix.MainWindow.Fits: the solver methods require only at least one row and one column, a weaker demand than the 2..20 that `ParseMatrixDimensions` enforces.
- The window keeps the reduced dimensions after a click, and the next click then reads the old text boxes with those dimensions. The model states the new field values but does not model a second click against the old grid.
- The members with the `Intended` suffix, and `TwoByTwo.Equilibrium`, have no counterpart in the program; the description above says which correction each carries. They model its evidently intended behaviour; see "Findings".

## Findings

| source | as written | input that shows it | evidently intended | confidence | as-written member | corrected member |
|---|---|---|---|---|---|---|
| GameMatrix/MainWindow.xaml.cs:215-217 | `IsRowDominated(m, i, k)` holds when row i is entrywise <= row k, and then row k, the larger one, is marked and dropped; this discards the rows player A (the maximiser) prefers | `[[3,0],[0,3],[-1,-1]]`: rows 0 and 1 are dropped and only `[-1,-1]` is kept, so the maximin falls from 0 to -1 and the solver reports that no 2x2 reduction exists | drop the row that lies below another, keeping `[[3,0],[0,3]]`, whose mixed solution is 1/2 for both players; the reduction then preserves maximin and minimax | high; not executed | Dominance.Reduce, GameMatrix.MainWindow.ReduceMatrix, Game.ThreeByTwoGivesUp, Game.RowPruningDiscardsBestRows | Dominance.ReduceIntended, Dominance.IntendedKeepsValues, GameMatrix.MainWindow.ReduceMatrixIntended, Game.ThreeByTwoSolved |
| GameMatrix/MainWindow.xaml.cs:294-296 | `p = (d-b)/D` is printed as player A's probability, and `q = (d-c)/D` as player B's | a=2, b=5, c=4, d=3: p = 1/2 is printed for A, but A playing row 0 with 1/2 leaves B paying 3.0 or 4.0; q = 1/4 is the value that leaves B indifferent | p is the probability of B's first column and q that of A's first row; A's line should show q and B's line p | high; not executed | TwoByTwo.PrintedStrategies, GameMatrix.MainWindow.SolveWithoutSaddle, TwoByTwo.PrintedLabelsSwapped | TwoByTwo.Equilibrium, GameMatrix.MainWindow.SolveWithoutSaddleIntended, TwoByTwo.PrintedIsSwapped |
