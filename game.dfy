/** What the solver reports for a payoff matrix: the two bounds of the game,
    then either its saddle points (a solution in pure strategies) or, when
    there are none, the mixed strategies of the 2x2 game left after at most
    one dominance reduction. Solve is the procedure as the program runs it;
    SolveIntended prunes rows the other way and prints each probability
    under the player it belongs to. */
module Game {
  import opened Matrices
  import opened Saddles
  import opened Dominance
  import opened TwoByTwo

  /** Why no mixed strategies could be reported. */
  datatype Failure =
    | DegenerateTwoByTwo       // the 2x2 formulas divide by zero
    | CannotReduceToTwoByTwo   // one reduction did not reach a 2x2 matrix

  datatype Verdict =
    | PureStrategy(points: seq<Cell>)
    | MixedStrategy(game: Grid, strategies: Strategies)
    | Unsolvable(reason: Failure)

  datatype Solution = Solution(maximin: int, minimax: int, verdict: Verdict)

  /** Exactly two rows of exactly two entries each. */
  predicate IsTwoByTwo(h: Grid) {
    |h| == 2 && |h[0]| == 2 && |h[1]| == 2
  }

  /** The matrix handed to the 2x2 formulas when there is no saddle point:
      reduced once when it is larger than 2x2 in either direction. */
  function Candidate(g: Grid): (h: Grid)
    requires Wellformed(g)
    ensures Wellformed(h)
    ensures |h| <= |g| && Width(h) <= Width(g)
  {
    if |g| > 2 || Width(g) > 2 then Reduce(g) else g
  }

  /** The candidate when rows are pruned the intended way. */
  function CandidateIntended(g: Grid): (h: Grid)
    requires Wellformed(g)
    ensures Wellformed(h)
    ensures |h| <= |g| && Width(h) <= Width(g)
  {
    if |g| > 2 || Width(g) > 2 then ReduceIntended(g) else g
  }

  /** The verdict when there is no saddle point, for the candidate matrix
      h: the probabilities as printed when h is a 2x2 game whose formulas
      do not divide by zero, and a failure otherwise. */
  function CandidateVerdict(h: Grid): (v: Verdict)
    ensures !v.PureStrategy?
    ensures v.MixedStrategy? ==> v.game == h && IsTwoByTwo(h)
  {
    if IsTwoByTwo(h) then
      match PrintedStrategies(h[0][0], h[0][1], h[1][0], h[1][1])
      case None => Unsolvable(DegenerateTwoByTwo)
      case Some(s) => MixedStrategy(h, s)
    else
      Unsolvable(CannotReduceToTwoByTwo)
  }

  /** The same verdict with each probability under its own player. */
  function CandidateVerdictIntended(h: Grid): (v: Verdict)
    ensures !v.PureStrategy?
    ensures v.MixedStrategy? ==> v.game == h && IsTwoByTwo(h)
  {
    if IsTwoByTwo(h) then
      match Equilibrium(h[0][0], h[0][1], h[1][0], h[1][1])
      case None => Unsolvable(DegenerateTwoByTwo)
      case Some(s) => MixedStrategy(h, s)
    else
      Unsolvable(CannotReduceToTwoByTwo)
  }

  /** A mixed verdict with its two probabilities exchanged; any other
      verdict unchanged. */
  function Relabel(v: Verdict): Verdict {
    match v
    case MixedStrategy(h, s) => MixedStrategy(h, Strategies(s.columnFirst, s.rowFirst))
    case _ => v
  }

  /** The report on g: its two bounds, then its saddle points when there
      are any, and otherwise the verdict reached without them. */
  function Report(g: Grid, withoutSaddle: Verdict): (r: Solution)
    requires Wellformed(g) && !withoutSaddle.PureStrategy?
    ensures r.maximin == Maximin(g) && r.minimax == Minimax(g) && r.maximin <= r.minimax
    ensures r.verdict.PureStrategy? <==> exists i, j :: 0 <= i < |g| && 0 <= j < Width(g) && IsSaddle(g, i, j)
    ensures r.verdict.PureStrategy? ==> r.maximin == r.minimax
    ensures !r.verdict.PureStrategy? ==> r.verdict == withoutSaddle
  {
    MaximinLeMinimax(g);
    var points := SaddlePoints(g);
    var verdict :=
      if |points| > 0 then
        SaddlePointsShareValue(g);
        PureStrategy(points)
      else
        withoutSaddle;
    assert verdict.PureStrategy? <==> exists i, j :: 0 <= i < |g| && 0 <= j < Width(g) && IsSaddle(g, i, j) by {
      if |points| > 0 {
        var p := points[0];
        assert p in points;
        assert IsSaddle(g, p.0, p.1);
      }
    }
    Solution(Maximin(g), Minimax(g), verdict)
  }

  /** The solver's decision procedure, as the program runs it. */
  function Solve(g: Grid): (r: Solution)
    requires Wellformed(g)
    ensures r.maximin <= r.minimax
    ensures r.verdict.PureStrategy? <==> exists i, j :: 0 <= i < |g| && 0 <= j < Width(g) && IsSaddle(g, i, j)
    ensures r.verdict.PureStrategy? ==> r.maximin == r.minimax
  {
    Report(g, CandidateVerdict(Candidate(g)))
  }

  /** The decision procedure with rows pruned the intended way and the
      probabilities under their own players. */
  function SolveIntended(g: Grid): (r: Solution)
    requires Wellformed(g)
    ensures r.maximin <= r.minimax
    ensures r.verdict.PureStrategy? <==> exists i, j :: 0 <= i < |g| && 0 <= j < Width(g) && IsSaddle(g, i, j)
    ensures r.verdict.PureStrategy? ==> r.maximin == r.minimax
  {
    Report(g, CandidateVerdictIntended(CandidateIntended(g)))
  }

  /** The bounds reported are the maximin and the minimax of the matrix as
      entered, whatever the verdict, and the verdict follows the saddle
      test. */
  lemma SolveReportsBounds(g: Grid)
    requires Wellformed(g)
    ensures Solve(g).maximin == Maximin(g) && Solve(g).minimax == Minimax(g)
    ensures Solve(g).verdict == if |SaddlePoints(g)| > 0 then PureStrategy(SaddlePoints(g)) else CandidateVerdict(Candidate(g))
    ensures SolveIntended(g).maximin == Maximin(g) && SolveIntended(g).minimax == Minimax(g)
    ensures SolveIntended(g).verdict ==
      if |SaddlePoints(g)| > 0 then PureStrategy(SaddlePoints(g)) else CandidateVerdictIntended(CandidateIntended(g))
    ensures exists i, j :: 0 <= i < |g| && 0 <= j < Width(g) && Solve(g).maximin == g[i][j]
    ensures exists i, j :: 0 <= i < |g| && 0 <= j < Width(g) && Solve(g).minimax == g[i][j]
  {
  }

  /** A pure verdict lists exactly the saddle points, in row-major order,
      and every one of them carries the common value of the game; the
      corrections do not touch it. */
  lemma PureVerdict(g: Grid)
    requires Wellformed(g) && Solve(g).verdict.PureStrategy?
    ensures var ps := Solve(g).verdict.points;
      && |ps| > 0
      && RowMajor(ps)
      && (forall i: nat, j: nat :: i < |g| && j < Width(g) ==> (IsSaddle(g, i, j) <==> (i, j) in ps))
      && (forall p :: p in ps ==> p.0 < |g| && p.1 < Width(g) && g[p.0][p.1] == Maximin(g) == Minimax(g))
    ensures SolveIntended(g).verdict == Solve(g).verdict
  {
    SolveReportsBounds(g);
    SaddlePointsShareValue(g);
  }

  /** As the program runs it, a mixed verdict comes from a matrix without
      saddle points and solves the matrix itself (when that was 2x2) or its
      reduction; the probability shown for player A is the one that leaves
      A, not B, indifferent, and likewise for B. */
  lemma MixedVerdict(g: Grid)
    requires Wellformed(g) && Solve(g).verdict.MixedStrategy?
    ensures forall i, j :: 0 <= i < |g| && 0 <= j < Width(g) ==> !IsSaddle(g, i, j)
    ensures var h := Solve(g).verdict.game;
      && IsTwoByTwo(h)
      && (if |g| > 2 || Width(g) > 2 then h == Reduce(g) else h == g)
    ensures var h, s := Solve(g).verdict.game, Solve(g).verdict.strategies;
      IsTwoByTwo(h)
      && RowsIndifferent(h[0][0], h[0][1], h[1][0], h[1][1], s.rowFirst)
      && ColumnsIndifferent(h[0][0], h[0][1], h[1][0], h[1][1], s.columnFirst)
  {
    SolveReportsBounds(g);
    var h := Candidate(g);
    assert IsTwoByTwo(h);
    var e := PrintedStrategies(h[0][0], h[0][1], h[1][0], h[1][1]);
    assert Solve(g).verdict == MixedStrategy(h, e.value);
  }

  /** With the corrections, a mixed verdict solves the matrix itself (when
      that was 2x2) or its intended reduction, and each player's
      probability leaves the other player indifferent between their two
      choices. */
  lemma MixedVerdictIntended(g: Grid)
    requires Wellformed(g) && SolveIntended(g).verdict.MixedStrategy?
    ensures forall i, j :: 0 <= i < |g| && 0 <= j < Width(g) ==> !IsSaddle(g, i, j)
    ensures var h := SolveIntended(g).verdict.game;
      && IsTwoByTwo(h)
      && (if |g| > 2 || Width(g) > 2 then h == ReduceIntended(g) else h == g)
    ensures var h, s := SolveIntended(g).verdict.game, SolveIntended(g).verdict.strategies;
      IsTwoByTwo(h)
      && ColumnsIndifferent(h[0][0], h[0][1], h[1][0], h[1][1], s.rowFirst)
      && RowsIndifferent(h[0][0], h[0][1], h[1][0], h[1][1], s.columnFirst)
  {
    SolveReportsBounds(g);
    var h := CandidateIntended(g);
    assert IsTwoByTwo(h);
    var e := Equilibrium(h[0][0], h[0][1], h[1][0], h[1][1]);
    assert SolveIntended(g).verdict == MixedStrategy(h, e.value);
  }

  /** The solver gives up exactly when there is no saddle point and either
      one reduction leaves a matrix other than 2x2, or the 2x2 formulas
      divide by zero; the same holds with the intended reduction. */
  lemma UnsolvableVerdict(g: Grid)
    requires Wellformed(g)
    ensures var h := Candidate(g);
      Solve(g).verdict == Unsolvable(CannotReduceToTwoByTwo) <==>
        |SaddlePoints(g)| == 0 && !IsTwoByTwo(h)
    ensures var h := Candidate(g);
      Solve(g).verdict == Unsolvable(DegenerateTwoByTwo) <==>
        |SaddlePoints(g)| == 0 && IsTwoByTwo(h) && h[0][0] - h[0][1] - h[1][0] + h[1][1] == 0
    ensures var h := CandidateIntended(g);
      SolveIntended(g).verdict == Unsolvable(CannotReduceToTwoByTwo) <==>
        |SaddlePoints(g)| == 0 && !IsTwoByTwo(h)
    ensures var h := CandidateIntended(g);
      SolveIntended(g).verdict == Unsolvable(DegenerateTwoByTwo) <==>
        |SaddlePoints(g)| == 0 && IsTwoByTwo(h) && h[0][0] - h[0][1] - h[1][0] + h[1][1] == 0
  {
    SolveReportsBounds(g);
    var h := Candidate(g);
    if IsTwoByTwo(h) {
      var e := PrintedStrategies(h[0][0], h[0][1], h[1][0], h[1][1]);
      assert e.None? <==> h[0][0] - h[0][1] - h[1][0] + h[1][1] == 0;
    }
    var h' := CandidateIntended(g);
    if IsTwoByTwo(h') {
      var e := Equilibrium(h'[0][0], h'[0][1], h'[1][0], h'[1][1]);
      assert e.None? <==> h'[0][0] - h'[0][1] - h'[1][0] + h'[1][1] == 0;
    }
  }

  /** On one candidate, the two verdicts differ only in which player each
      probability is shown for. */
  lemma CandidateVerdictRelabelled(h: Grid)
    ensures CandidateVerdict(h) == Relabel(CandidateVerdictIntended(h))
  {
    if IsTwoByTwo(h) {
      PrintedIsSwapped(h[0][0], h[0][1], h[1][0], h[1][1]);
    }
  }

  /** The two procedures report the same bounds and the same saddle points.
      When the matrix is not reduced, or when both row rules mark the same
      rows (by RowRulesAgree, exactly when no row lies below another), their
      verdicts also agree up to the swapped labels. */
  lemma PipelinesAgree(g: Grid)
    requires Wellformed(g)
    ensures Solve(g).maximin == SolveIntended(g).maximin && Solve(g).minimax == SolveIntended(g).minimax
    ensures Solve(g).verdict.PureStrategy? <==> SolveIntended(g).verdict.PureStrategy?
    ensures Solve(g).verdict.PureStrategy? ==> Solve(g).verdict == SolveIntended(g).verdict
    ensures (|g| <= 2 && Width(g) <= 2) || RowMarks(g) == RowMarksIntended(g) ==>
      Solve(g).verdict == Relabel(SolveIntended(g).verdict)
  {
    SolveReportsBounds(g);
    if (|g| <= 2 && Width(g) <= 2) || RowMarks(g) == RowMarksIntended(g) {
      assert Candidate(g) == CandidateIntended(g);
      CandidateVerdictRelabelled(Candidate(g));
    }
  }

  /** The saddle test on each cell of a 2x2 matrix, spelled out. */
  lemma TwoByTwoSaddles(g: Grid)
    requires Wellformed(g) && |g| == 2 && Width(g) == 2
    ensures IsSaddle(g, 0, 0) <==> g[0][0] <= g[0][1] && g[0][0] >= g[1][0]
    ensures IsSaddle(g, 0, 1) <==> g[0][1] <= g[0][0] && g[0][1] >= g[1][1]
    ensures IsSaddle(g, 1, 0) <==> g[1][0] <= g[1][1] && g[1][0] >= g[0][0]
    ensures IsSaddle(g, 1, 1) <==> g[1][1] <= g[1][0] && g[1][1] >= g[0][1]
  {
    assert |g[1]| == 2;
    assert MinOf(g[0]) == if g[0][1] < g[0][0] then g[0][1] else g[0][0] by {
      assert g[0][..1] == [g[0][0]];
    }
    assert MinOf(g[1]) == if g[1][1] < g[1][0] then g[1][1] else g[1][0] by {
      assert g[1][..1] == [g[1][0]];
    }
    assert MaxOf(Column(g, 0)) == if g[1][0] > g[0][0] then g[1][0] else g[0][0] by {
      assert Column(g, 0)[..1] == [g[0][0]];
    }
    assert MaxOf(Column(g, 1)) == if g[1][1] > g[0][1] then g[1][1] else g[0][1] by {
      assert Column(g, 1)[..1] == [g[0][1]];
    }
  }

  /** In a 2x2 matrix, having no saddle point is the four-way condition
      that no entry is both its row's minimum and its column's maximum. */
  lemma TwoByTwoSaddleFree(g: Grid)
    requires Wellformed(g) && |g| == 2 && Width(g) == 2
    ensures |SaddlePoints(g)| == 0 <==> SaddleFree(g[0][0], g[0][1], g[1][0], g[1][1])
  {
    TwoByTwoSaddles(g);
    var ps := SaddlePoints(g);
    if |ps| > 0 {
      var p := ps[0];
      assert p in ps;
      assert p.0 < 2 && p.1 < 2 && IsSaddle(g, p.0, p.1);
      assert IsSaddle(g, 0, 0) || IsSaddle(g, 0, 1) || IsSaddle(g, 1, 0) || IsSaddle(g, 1, 1);
    } else {
      assert (0, 0) !in ps && (0, 1) !in ps && (1, 0) !in ps && (1, 1) !in ps;
    }
  }

  /** A 2x2 matrix without a saddle point always gets a mixed verdict: the
      denominator is non-zero and both probabilities lie strictly between 0
      and 1. */
  lemma TwoByTwoWithoutSaddleIsMixed(g: Grid)
    requires Wellformed(g) && |g| == 2 && Width(g) == 2 && |SaddlePoints(g)| == 0
    ensures SolveIntended(g).verdict.MixedStrategy? && SolveIntended(g).verdict.game == g
    ensures var s := SolveIntended(g).verdict.strategies;
      0.0 < s.rowFirst < 1.0 && 0.0 < s.columnFirst < 1.0
    ensures Solve(g).verdict == Relabel(SolveIntended(g).verdict)
  {
    assert |g[1]| == 2;
    assert CandidateIntended(g) == g;
    SolveReportsBounds(g);
    TwoByTwoSaddleFree(g);
    SaddleFreeIsInterior(g[0][0], g[0][1], g[1][0], g[1][1]);
    var e := Equilibrium(g[0][0], g[0][1], g[1][0], g[1][1]);
    assert e == Some(Strategies(SolveTwoByTwo(g[0][0], g[0][1], g[1][0], g[1][1]).q,
                                SolveTwoByTwo(g[0][0], g[0][1], g[1][0], g[1][1]).p));
    assert SolveIntended(g).verdict == MixedStrategy(g, e.value);
    PipelinesAgree(g);
  }

  // ----- The direction of row pruning ------------------------------------

  /** A 3x2 game without a saddle point: two rows that player A mixes, and
      a third row worse than both. */
  const ThreeByTwo: Grid := [[3, 0], [0, 3], [-1, -1]]

  /** Row 2 lies below rows 0 and 1, which are incomparable. */
  lemma ThreeByTwoRowOrder()
    ensures Wellformed(ThreeByTwo)
    ensures RowBelow(ThreeByTwo, 2, 0) && RowBelow(ThreeByTwo, 2, 1)
    ensures !RowBelow(ThreeByTwo, 0, 2) && !RowBelow(ThreeByTwo, 1, 2)
    ensures !RowBelow(ThreeByTwo, 0, 1) && !RowBelow(ThreeByTwo, 1, 0)
  {
    var g := ThreeByTwo;
    assert g[2][0] < g[0][0] && g[2][1] < g[1][1];
    assert g[0][0] > g[2][0] && g[1][1] > g[2][1];
    assert g[0][0] > g[1][0] && g[1][1] > g[0][1];
  }

  /** The two columns are incomparable. */
  lemma ThreeByTwoColumnOrder()
    ensures Wellformed(ThreeByTwo)
    ensures !ColumnBelow(ThreeByTwo, 0, 1) && !ColumnBelow(ThreeByTwo, 1, 0)
  {
    var g := ThreeByTwo;
    assert g[0][0] > g[0][1] && g[1][1] > g[1][0];
  }

  lemma ThreeByTwoRowMarks()
    ensures Wellformed(ThreeByTwo)
    ensures RowMarked(ThreeByTwo, 0) && RowMarked(ThreeByTwo, 1) && !RowMarked(ThreeByTwo, 2)
  {
    ThreeByTwoRowOrder();
    var g := ThreeByTwo;
    forall i | 0 <= i < |g| && i != 2
      ensures !RowBelow(g, i, 2)
    {
      assert i == 0 || i == 1;
    }
  }

  lemma ThreeByTwoRowMarksIntended()
    ensures Wellformed(ThreeByTwo)
    ensures !RowMarkedIntended(ThreeByTwo, 0) && !RowMarkedIntended(ThreeByTwo, 1) && RowMarkedIntended(ThreeByTwo, 2)
  {
    ThreeByTwoRowOrder();
    var g := ThreeByTwo;
    forall i | 0 <= i < |g| && i != 0
      ensures !RowBelow(g, 0, i)
    {
      assert i == 1 || i == 2;
    }
    forall i | 0 <= i < |g| && i != 1
      ensures !RowBelow(g, 1, i)
    {
      assert i == 0 || i == 2;
    }
  }

  lemma ThreeByTwoColumnMarks()
    ensures Wellformed(ThreeByTwo)
    ensures !ColumnMarked(ThreeByTwo, 0) && !ColumnMarked(ThreeByTwo, 1)
  {
    ThreeByTwoColumnOrder();
  }

  /** As written, rows 0 and 1 are marked (each has row 2 below it), so
      row 2 alone is kept. */
  lemma ThreeByTwoKeptRows()
    ensures Wellformed(ThreeByTwo)
    ensures RowMarks(ThreeByTwo) == [true, true, false]
    ensures Survivors(RowMarks(ThreeByTwo)) == [2]
  {
    ThreeByTwoRowMarks();
    assert RowMarks(ThreeByTwo) == [true, true, false];
    var m := [true, true, false];
    assert Survivors(m) == [2] by {
      assert m[..2] == [true, true] && m[..2][..1] == [true];
    }
  }

  /** By the intended rule only row 2 is marked (it lies below both), so
      rows 0 and 1 are kept. */
  lemma ThreeByTwoKeptRowsIntended()
    ensures Wellformed(ThreeByTwo)
    ensures RowMarksIntended(ThreeByTwo) == [false, false, true]
    ensures Survivors(RowMarksIntended(ThreeByTwo)) == [0, 1]
  {
    ThreeByTwoRowMarksIntended();
    assert RowMarksIntended(ThreeByTwo) == [false, false, true];
    var m := [false, false, true];
    assert Survivors(m) == [0, 1] by {
      assert m[..2] == [false, false] && m[..2][..1] == [false];
    }
  }

  /** No column is marked, so both are kept. */
  lemma ThreeByTwoKeptColumns()
    ensures Wellformed(ThreeByTwo)
    ensures ColumnMarks(ThreeByTwo) == [false, false]
    ensures Survivors(ColumnMarks(ThreeByTwo)) == [0, 1]
  {
    ThreeByTwoColumnMarks();
    assert ColumnMarks(ThreeByTwo) == [false, false];
    var m := [false, false];
    assert Survivors(m) == [0, 1] by {
      assert m[..1] == [false];
    }
  }

  /** The two reductions of ThreeByTwo: the solver's keeps row 2 alone,
      the intended one rows 0 and 1. */
  lemma ThreeByTwoReductions()
    ensures Wellformed(ThreeByTwo)
    ensures Reduce(ThreeByTwo) == [[-1, -1]]
    ensures ReduceIntended(ThreeByTwo) == [[3, 0], [0, 3]]
  {
    ThreeByTwoKeptRows();
    ThreeByTwoKeptRowsIntended();
    ThreeByTwoKeptColumns();
    var g := ThreeByTwo;
    assert Reduce(g) == Submatrix(g, [2], [0, 1]);
    assert ReduceIntended(g) == Submatrix(g, [0, 1], [0, 1]);
    ThreeByTwoSubmatrices();
  }

  lemma ThreeByTwoSubmatrices()
    ensures Wellformed(ThreeByTwo)
    ensures Submatrix(ThreeByTwo, [2], [0, 1]) == [[-1, -1]]
    ensures Submatrix(ThreeByTwo, [0, 1], [0, 1]) == [[3, 0], [0, 3]]
  {
    var g := ThreeByTwo;
    var h := Submatrix(g, [2], [0, 1]);
    assert |h| == 1 && |h[0]| == 2;
    assert h[0] == [-1, -1];
    var h' := Submatrix(g, [0, 1], [0, 1]);
    assert |h'| == 2 && |h'[0]| == 2 && |h'[1]| == 2;
    assert h'[0] == [3, 0] && h'[1] == [0, 3];
  }

  /** Row minima and column maxima of ThreeByTwo. */
  lemma ThreeByTwoExtremes()
    ensures Wellformed(ThreeByTwo)
    ensures MinOf(ThreeByTwo[0]) == 0 && MinOf(ThreeByTwo[1]) == 0 && MinOf(ThreeByTwo[2]) == -1
    ensures MaxOf(Column(ThreeByTwo, 0)) == 3 && MaxOf(Column(ThreeByTwo, 1)) == 3
  {
    ThreeByTwoRowMinima();
    ThreeByTwoColumnMaxima();
  }

  lemma ThreeByTwoRowMinima()
    ensures Wellformed(ThreeByTwo)
    ensures MinOf(ThreeByTwo[0]) == 0 && MinOf(ThreeByTwo[1]) == 0 && MinOf(ThreeByTwo[2]) == -1
  {
    var g := ThreeByTwo;
    assert g[0][..1] == [3];
    assert g[1][..1] == [0];
    assert g[2][..1] == [-1];
  }

  lemma ThreeByTwoColumnMaxima()
    ensures Wellformed(ThreeByTwo)
    ensures MaxOf(Column(ThreeByTwo, 0)) == 3 && MaxOf(Column(ThreeByTwo, 1)) == 3
  {
    var g := ThreeByTwo;
    assert Column(g, 0) == [3, 0, -1];
    assert Column(g, 1) == [0, 3, -1];
    var c0, c1 := [3, 0, -1], [0, 3, -1];
    assert MaxOf(c0) == 3 by {
      assert c0[..2] == [3, 0] && c0[..2][..1] == [3];
    }
    assert MaxOf(c1) == 3 by {
      assert c1[..2] == [0, 3] && c1[..2][..1] == [0];
    }
  }

  /** ThreeByTwo's maximin is 0 (rows 0 and 1 have minimum 0) and its
      minimax is 3. */
  lemma ThreeByTwoValues()
    ensures Wellformed(ThreeByTwo)
    ensures Maximin(ThreeByTwo) == 0 && Minimax(ThreeByTwo) == 3
  {
    ThreeByTwoMaximin();
    ThreeByTwoMinimax();
  }

  lemma ThreeByTwoMaximin()
    ensures Wellformed(ThreeByTwo) && Maximin(ThreeByTwo) == 0
  {
    ThreeByTwoExtremes();
    var g := ThreeByTwo;
    var i :| 0 <= i < |g| && Maximin(g) == MinOf(g[i]);
    assert i == 0 || i == 1 || i == 2;
    assert Maximin(g) >= MinOf(g[0]);
  }

  lemma ThreeByTwoMinimax()
    ensures Wellformed(ThreeByTwo) && Minimax(ThreeByTwo) == 3
  {
    ThreeByTwoExtremes();
    var g := ThreeByTwo;
    assert Width(g) == 2;
    var j :| 0 <= j < Width(g) && Minimax(g) == MaxOf(Column(g, j));
    assert j == 0 || j == 1;
  }

  /** No entry of ThreeByTwo is both its row's minimum and its column's
      maximum. */
  lemma ThreeByTwoNoSaddle()
    ensures Wellformed(ThreeByTwo) && |SaddlePoints(ThreeByTwo)| == 0
  {
    ThreeByTwoExtremes();
    var g := ThreeByTwo;
    forall i: nat, j: nat | i < |g| && j < Width(g)
      ensures !IsSaddle(g, i, j)
    {
      assert i == 0 || i == 1 || i == 2;
      assert j == 0 || j == 1;
    }
  }

  /** As the program runs it, the reduction of ThreeByTwo is a single row
      and the solver gives up. */
  lemma ThreeByTwoGivesUp()
    ensures Wellformed(ThreeByTwo)
    ensures |SaddlePoints(ThreeByTwo)| == 0 && Reduce(ThreeByTwo) == [[-1, -1]]
    ensures Solve(ThreeByTwo).verdict == Unsolvable(CannotReduceToTwoByTwo)
  {
    ThreeByTwoNoSaddle();
    ThreeByTwoReductions();
    SolveReportsBounds(ThreeByTwo);
    assert Candidate(ThreeByTwo) == [[-1, -1]];
    assert !IsTwoByTwo([[-1, -1]]);
  }

  /** With the rows pruned the intended way, ThreeByTwo reduces to the 2x2
      game [[3, 0], [0, 3]], which both players solve by mixing half and
      half. */
  lemma ThreeByTwoSolved()
    ensures Wellformed(ThreeByTwo)
    ensures SolveIntended(ThreeByTwo).verdict == MixedStrategy([[3, 0], [0, 3]], Strategies(0.5, 0.5))
  {
    ThreeByTwoNoSaddle();
    ThreeByTwoReductions();
    HalfAndHalf();
    SolveReportsBounds(ThreeByTwo);
    assert CandidateIntended(ThreeByTwo) == [[3, 0], [0, 3]];
  }

  lemma SingleRowMaximin()
    ensures Wellformed([[-1, -1]]) && Maximin([[-1, -1]]) == -1
  {
    var r: Grid := [[-1, -1]];
    assert r[0][..1] == [-1];
    assert MinOf(r[0]) == -1;
  }

  lemma HalfAndHalf()
    ensures Equilibrium(3, 0, 0, 3) == Some(Strategies(0.5, 0.5))
  {
    assert (3 - 0) as real / (3 - 0 - 0 + 3) as real == 0.5;
  }

  /** As written, the two rows player A wants are the ones discarded: the
      reduction keeps only the worst row, lowers the maximin from 0 to -1,
      and the solver gives up. Pruning rows the other way keeps the two good
      rows and the game's values, and the solver finds both players mixing
      half and half. */
  lemma RowPruningDiscardsBestRows()
    ensures Wellformed(ThreeByTwo) && |SaddlePoints(ThreeByTwo)| == 0
    ensures Reduce(ThreeByTwo) == [[-1, -1]]
    ensures Maximin(ThreeByTwo) == 0 && Maximin(Reduce(ThreeByTwo)) == -1
    ensures Solve(ThreeByTwo).verdict == Unsolvable(CannotReduceToTwoByTwo)
    ensures ReduceIntended(ThreeByTwo) == [[3, 0], [0, 3]]
    ensures Maximin(ReduceIntended(ThreeByTwo)) == Maximin(ThreeByTwo)
    ensures SolveIntended(ThreeByTwo).verdict == MixedStrategy([[3, 0], [0, 3]], Strategies(0.5, 0.5))
  {
    ThreeByTwoNoSaddle();
    ThreeByTwoValues();
    ThreeByTwoReductions();
    SingleRowMaximin();
    ThreeByTwoGivesUp();
    IntendedKeepsValues(ThreeByTwo);
    ThreeByTwoSolved();
  }
}
