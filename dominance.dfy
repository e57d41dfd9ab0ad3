/** One pass of strict-dominance reduction, as the solver performs it, and
    the reduction that removes the rows player A would never prefer. */
module Dominance {
  import opened Matrices
  import Orders

  /** Row i lies entrywise at or below row k and strictly below it in at
      least one column: the test IsRowDominated(matrix, i, k) performs. */
  predicate RowBelow(g: Grid, i: nat, k: nat)
    requires Wellformed(g) && i < |g| && k < |g|
  {
    && (forall j :: 0 <= j < Width(g) ==> g[i][j] <= g[k][j])
    && (exists j :: 0 <= j < Width(g) && g[i][j] < g[k][j])
  }

  /** Column j lies entrywise at or below column l and strictly below it in
      at least one row: the test IsColumnDominated(matrix, j, l) performs. */
  predicate ColumnBelow(g: Grid, j: nat, l: nat)
    requires Wellformed(g) && j < Width(g) && l < Width(g)
  {
    && (forall i :: 0 <= i < |g| ==> g[i][j] <= g[i][l])
    && (exists i :: 0 <= i < |g| && g[i][j] < g[i][l])
  }

  /** RowBelow as a relation on all row indices. */
  ghost function RowOrder(g: Grid): (nat, nat) -> bool
    requires Wellformed(g)
  {
    (i: nat, k: nat) => i < |g| && k < |g| && RowBelow(g, i, k)
  }

  /** The converse of RowBelow: a is above b. */
  ghost function RowOrderAbove(g: Grid): (nat, nat) -> bool
    requires Wellformed(g)
  {
    (a: nat, b: nat) => a < |g| && b < |g| && RowBelow(g, b, a)
  }

  /** ColumnBelow as a relation on all column indices. */
  ghost function ColumnOrder(g: Grid): (nat, nat) -> bool
    requires Wellformed(g)
  {
    (j: nat, l: nat) => j < Width(g) && l < Width(g) && ColumnBelow(g, j, l)
  }

  /** Both tests are irreflexive and transitive, hence asymmetric: no row
      is below itself, and two rows are never below each other. */
  lemma RowBelowIsStrictOrder(g: Grid)
    requires Wellformed(g)
    ensures forall i, k :: 0 <= i < |g| && 0 <= k < |g| && RowBelow(g, i, k) ==> i != k && !RowBelow(g, k, i)
    ensures Orders.StrictOrderOn(|g|, RowOrder(g))
    ensures Orders.StrictOrderOn(|g|, RowOrderAbove(g))
  {
    forall i, k, m | 0 <= i < |g| && 0 <= k < |g| && 0 <= m < |g| && RowBelow(g, i, k) && RowBelow(g, k, m)
      ensures RowBelow(g, i, m)
    {
      var j :| 0 <= j < Width(g) && g[k][j] < g[m][j];
      assert g[i][j] <= g[k][j];
    }
  }

  lemma ColumnBelowIsStrictOrder(g: Grid)
    requires Wellformed(g)
    ensures forall j, l :: 0 <= j < Width(g) && 0 <= l < Width(g) && ColumnBelow(g, j, l) ==> j != l && !ColumnBelow(g, l, j)
    ensures Orders.StrictOrderOn(Width(g), ColumnOrder(g))
  {
    forall j, l, n | 0 <= j < Width(g) && 0 <= l < Width(g) && 0 <= n < Width(g) && ColumnBelow(g, j, l) && ColumnBelow(g, l, n)
      ensures ColumnBelow(g, j, n)
    {
      var i :| 0 <= i < |g| && g[i][l] < g[i][n];
      assert g[i][j] <= g[i][l];
    }
  }

  // ----- Marking --------------------------------------------------------

  /** As the solver marks rows: row k goes when some other row lies below
      it, so the row with the LARGER payoffs for player A is discarded. */
  predicate RowMarked(g: Grid, k: nat)
    requires Wellformed(g) && k < |g|
  {
    exists i :: 0 <= i < |g| && i != k && RowBelow(g, i, k)
  }

  /** Column l goes when some other column lies below it: player B, who
      pays the entries, never needs the larger column. */
  predicate ColumnMarked(g: Grid, l: nat)
    requires Wellformed(g) && l < Width(g)
  {
    exists j :: 0 <= j < Width(g) && j != l && ColumnBelow(g, j, l)
  }

  /** Strict dominance for the maximizing player: row k goes when some
      other row lies above it. */
  predicate RowMarkedIntended(g: Grid, k: nat)
    requires Wellformed(g) && k < |g|
  {
    exists i :: 0 <= i < |g| && i != k && RowBelow(g, k, i)
  }

  function RowMarks(g: Grid): (s: seq<bool>)
    requires Wellformed(g)
    ensures |s| == |g| && forall k :: 0 <= k < |g| ==> s[k] == RowMarked(g, k)
  {
    seq(|g|, k requires 0 <= k < |g| => RowMarked(g, k))
  }

  function ColumnMarks(g: Grid): (s: seq<bool>)
    requires Wellformed(g)
    ensures |s| == Width(g) && forall l :: 0 <= l < Width(g) ==> s[l] == ColumnMarked(g, l)
  {
    seq(Width(g), l requires 0 <= l < Width(g) => ColumnMarked(g, l))
  }

  function RowMarksIntended(g: Grid): (s: seq<bool>)
    requires Wellformed(g)
    ensures |s| == |g| && forall k :: 0 <= k < |g| ==> s[k] == RowMarkedIntended(g, k)
  {
    seq(|g|, k requires 0 <= k < |g| => RowMarkedIntended(g, k))
  }

  /** Number of marked entries. */
  function CountMarked(marks: seq<bool>): (c: nat)
    ensures c <= |marks|
    ensures c == 0 <==> forall k :: 0 <= k < |marks| ==> !marks[k]
  {
    if marks == [] then 0
    else
      var n := |marks| - 1;
      assert forall k :: 0 <= k < n ==> marks[..n][k] == marks[k];
      CountMarked(marks[..n]) + if marks[n] then 1 else 0
  }

  /** The unmarked indices, in increasing order: exactly those, each once. */
  function Survivors(marks: seq<bool>): (idx: seq<nat>)
    ensures |idx| == |marks| - CountMarked(marks)
    ensures forall a :: 0 <= a < |idx| ==> idx[a] < |marks| && !marks[idx[a]]
  {
    if marks == [] then []
    else
      var n := |marks| - 1;
      assert forall k :: 0 <= k < n ==> marks[..n][k] == marks[k];
      Survivors(marks[..n]) + if marks[n] then [] else [n]
  }

  /** The survivors keep their original order: strictly increasing, so
      also free of repeats. */
  lemma {:induction false} SurvivorsIncreasing(marks: seq<bool>)
    ensures forall a, b :: 0 <= a < b < |Survivors(marks)| ==> Survivors(marks)[a] < Survivors(marks)[b]
  {
    if marks != [] {
      var n := |marks| - 1;
      SurvivorsIncreasing(marks[..n]);
      assert Survivors(marks) == Survivors(marks[..n]) + if marks[n] then [] else [n];
    }
  }

  /** With nothing marked, every index survives in place. */
  lemma {:induction false} SurvivorsOfUnmarked(marks: seq<bool>)
    requires forall k :: 0 <= k < |marks| ==> !marks[k]
    ensures forall a :: 0 <= a < |Survivors(marks)| ==> Survivors(marks)[a] == a
    ensures |Survivors(marks)| == |marks|
  {
    if marks != [] {
      var n := |marks| - 1;
      SurvivorsOfUnmarked(marks[..n]);
    }
  }

  /** The survivors among the first n + 1 marks extend those among the
      first n by index n when it is unmarked. */
  lemma SurvivorsStep(marks: seq<bool>, n: nat)
    requires n < |marks|
    ensures Survivors(marks[..n + 1]) == Survivors(marks[..n]) + if marks[n] then [] else [n]
  {
    assert marks[..n + 1][..n] == marks[..n];
  }

  /** Every unmarked index survives: its position among the survivors. */
  lemma {:induction false} SurvivorPosition(marks: seq<bool>, k: nat) returns (a: nat)
    requires k < |marks| && !marks[k]
    ensures a < |Survivors(marks)| && Survivors(marks)[a] == k
    decreases |marks|
  {
    var n := |marks| - 1;
    assert Survivors(marks) == Survivors(marks[..n]) + if marks[n] then [] else [n];
    if k == n {
      a := |Survivors(marks[..n])|;
    } else {
      assert marks[..n][k] == marks[k];
      a := SurvivorPosition(marks[..n], k);
    }
  }

  /** An unmarked index n sits among the survivors right after the
      survivors of the marks before it. */
  lemma {:induction false} SurvivorAt(marks: seq<bool>, n: nat)
    requires n < |marks| && !marks[n]
    ensures |Survivors(marks[..n])| < |Survivors(marks)|
    ensures Survivors(marks)[|Survivors(marks[..n])|] == n
    decreases |marks|
  {
    var last := |marks| - 1;
    assert Survivors(marks) == Survivors(marks[..last]) + if marks[last] then [] else [last];
    if n < last {
      assert marks[..last][..n] == marks[..n];
      SurvivorAt(marks[..last], n);
    }
  }

  /** idx lists indices below |marks|, and pos[j] is where a scan that
      skips marked entries writes entry j: pos counts the unmarked entries
      before j, and idx[pos[j]] == j for every unmarked j. */
  predicate ScanPositions(marks: seq<bool>, idx: seq<nat>, pos: seq<nat>) {
    && |pos| == |marks| + 1 && pos[0] == 0 && pos[|marks|] == |idx|
    && (forall a :: 0 <= a < |idx| ==> idx[a] < |marks|)
    && (forall j :: 0 <= j < |marks| ==> pos[j + 1] == pos[j] + if marks[j] then 0 else 1)
    && (forall j :: 0 <= j < |marks| && !marks[j] ==> pos[j] < |idx| && idx[pos[j]] == j)
  }

  /** The survivors with their write positions: the number of survivors
      before each index. */
  lemma SurvivorPositions(marks: seq<bool>) returns (pos: seq<nat>)
    ensures ScanPositions(marks, Survivors(marks), pos)
  {
    pos := seq(|marks| + 1, j requires 0 <= j <= |marks| => |Survivors(marks[..j])|);
    assert marks[..|marks|] == marks;
    forall j | 0 <= j < |marks|
      ensures pos[j + 1] == pos[j] + if marks[j] then 0 else 1
    {
      SurvivorsStep(marks, j);
    }
    forall j | 0 <= j < |marks| && !marks[j]
      ensures pos[j] < |Survivors(marks)| && Survivors(marks)[pos[j]] == j
    {
      SurvivorAt(marks, j);
    }
  }

  // ----- Reduction ------------------------------------------------------

  /** The cells at the chosen rows and columns, in the order given. */
  function Submatrix(g: Grid, rs: seq<nat>, cs: seq<nat>): (h: Grid)
    requires Wellformed(g)
    requires forall r :: 0 <= r < |rs| ==> rs[r] < |g|
    requires forall c :: 0 <= c < |cs| ==> cs[c] < Width(g)
    ensures |h| == |rs| && forall r :: 0 <= r < |rs| ==> |h[r]| == |cs|
    ensures forall r, c :: 0 <= r < |rs| && 0 <= c < |cs| ==> cs[c] < |g[rs[r]]| && h[r][c] == g[rs[r]][cs[c]]
  {
    assert forall r :: 0 <= r < |rs| ==> |g[rs[r]]| == Width(g);
    seq(|rs|, r requires 0 <= r < |rs| => seq(|cs|, c requires 0 <= c < |cs| => g[rs[r]][cs[c]]))
  }

  /** Some row survives the solver's marking: one that no row lies below. */
  lemma SomeRowSurvives(g: Grid, k: nat) returns (i: nat)
    requires Wellformed(g) && k < |g|
    ensures i < |g| && !RowMarked(g, i) && (i == k || RowBelow(g, i, k))
  {
    RowBelowIsStrictOrder(g);
    var R := RowOrder(g);
    i := Orders.MinimalBelow(|g|, R, k);
    forall a | 0 <= a < |g|
      ensures !RowBelow(g, a, i)
    {
      assert !R(a, i);
    }
  }

  /** The two row rules mark the same rows exactly when no row lies below
      another: otherwise a row that nothing lies below, taken under one
      that lies below some row, is marked by the corrected rule only. */
  lemma RowRulesAgree(g: Grid)
    requires Wellformed(g)
    ensures RowMarks(g) == RowMarksIntended(g) <==>
      forall i, k :: 0 <= i < |g| && 0 <= k < |g| ==> !RowBelow(g, i, k)
  {
    if i, k :| 0 <= i < |g| && 0 <= k < |g| && RowBelow(g, i, k) {
      RowBelowIsStrictOrder(g);
      var m := SomeRowSurvives(g, i);
      assert RowBelow(g, m, k) by {
        if m != i {
          assert RowOrder(g)(m, i) && RowOrder(g)(i, k);
        }
      }
      assert RowMarkedIntended(g, m);
      assert RowMarks(g)[m] != RowMarksIntended(g)[m];
    } else {
      assert forall k :: 0 <= k < |g| ==> !RowMarked(g, k) && !RowMarkedIntended(g, k);
    }
  }

  /** Below every column there is a surviving one: a column that no column
      lies below. */
  lemma SomeColumnSurvives(g: Grid, l: nat) returns (j: nat)
    requires Wellformed(g) && l < Width(g)
    ensures j < Width(g) && !ColumnMarked(g, j) && (j == l || ColumnBelow(g, j, l))
  {
    ColumnBelowIsStrictOrder(g);
    var R := ColumnOrder(g);
    j := Orders.MinimalBelow(Width(g), R, l);
    forall a | 0 <= a < Width(g)
      ensures !ColumnBelow(g, a, j)
    {
      assert !R(a, j);
    }
  }

  /** Above every row there is a row the intended rule keeps: one that no
      row lies above. */
  lemma SomeRowSurvivesIntended(g: Grid, k: nat) returns (i: nat)
    requires Wellformed(g) && k < |g|
    ensures i < |g| && !RowMarkedIntended(g, i) && (i == k || RowBelow(g, k, i))
  {
    RowBelowIsStrictOrder(g);
    var R := RowOrderAbove(g);
    i := Orders.MinimalBelow(|g|, R, k);
    forall a | 0 <= a < |g|
      ensures !RowBelow(g, i, a)
    {
      assert !R(a, i);
    }
  }

  /** The cells in the unmarked rows (by the given row marks) and the
      unmarked columns, in their original order. At least one row and one
      column are kept, and the new dimensions are the old ones less the
      marked counts. */
  function Prune(g: Grid, rowMarks: seq<bool>): (h: Grid)
    requires Wellformed(g) && |rowMarks| == |g|
    requires exists k :: 0 <= k < |g| && !rowMarks[k]
    ensures Wellformed(h)
    ensures |h| == |g| - CountMarked(rowMarks) && Width(h) == Width(g) - CountMarked(ColumnMarks(g))
  {
    var rs := Survivors(rowMarks);
    var cs := Survivors(ColumnMarks(g));
    assert |rs| > 0 && |cs| > 0 by {
      var k :| 0 <= k < |g| && !rowMarks[k];
      var _ := SurvivorPosition(rowMarks, k);
      var j := SomeColumnSurvives(g, 0);
      var _ := SurvivorPosition(ColumnMarks(g), j);
    }
    Submatrix(g, rs, cs)
  }

  /** How pruning lays out: the kept rows and columns, where each lands in
      a scan that skips marked ones, and the result as the submatrix they
      pick. */
  lemma PruneLayout(g: Grid, rowMarks: seq<bool>) returns (rs: seq<nat>, cs: seq<nat>, rowPos: seq<nat>, colPos: seq<nat>)
    requires Wellformed(g) && |rowMarks| == |g|
    requires exists k :: 0 <= k < |g| && !rowMarks[k]
    ensures ScanPositions(rowMarks, rs, rowPos) && ScanPositions(ColumnMarks(g), cs, colPos)
    ensures 0 < |rs| == |g| - CountMarked(rowMarks)
    ensures 0 < |cs| == Width(g) - CountMarked(ColumnMarks(g))
    ensures Prune(g, rowMarks) == Submatrix(g, rs, cs)
  {
    rs, cs := Survivors(rowMarks), Survivors(ColumnMarks(g));
    rowPos := SurvivorPositions(rowMarks);
    colPos := SurvivorPositions(ColumnMarks(g));
    var h := Prune(g, rowMarks);
    assert h == Submatrix(g, rs, cs);
    assert |h| == |rs| && |h[0]| == |cs|;
  }

  /** The solver's reduction as written: rows marked by RowMarked. */
  function Reduce(g: Grid): (h: Grid)
    requires Wellformed(g)
    ensures Wellformed(h)
    ensures |h| == |g| - CountMarked(RowMarks(g)) && Width(h) == Width(g) - CountMarked(ColumnMarks(g))
  {
    assert exists k :: 0 <= k < |g| && !RowMarks(g)[k] by {
      var i := SomeRowSurvives(g, 0);
      assert !RowMarks(g)[i];
    }
    Prune(g, RowMarks(g))
  }

  /** The reduction the maximizing player needs: a row goes when another
      row lies above it. */
  function ReduceIntended(g: Grid): (h: Grid)
    requires Wellformed(g)
    ensures Wellformed(h)
    ensures |h| == |g| - CountMarked(RowMarksIntended(g)) && Width(h) == Width(g) - CountMarked(ColumnMarks(g))
  {
    assert exists k :: 0 <= k < |g| && !RowMarksIntended(g)[k] by {
      var i := SomeRowSurvivesIntended(g, 0);
      assert !RowMarksIntended(g)[i];
    }
    Prune(g, RowMarksIntended(g))
  }

  /** A matrix with no row below another and no column below another is
      left as it is by both rules, so reducing an already reduced matrix
      changes nothing. */
  lemma ReduceWithoutDominance(g: Grid)
    requires Wellformed(g)
    requires forall i, k :: 0 <= i < |g| && 0 <= k < |g| ==> !RowBelow(g, i, k)
    requires forall l :: 0 <= l < Width(g) ==> !ColumnMarked(g, l)
    ensures Reduce(g) == g && ReduceIntended(g) == g
  {
    assert RowMarks(g) == RowMarksIntended(g);
    PruneUnmarked(g, RowMarks(g));
  }

  lemma PruneUnmarked(g: Grid, rowMarks: seq<bool>)
    requires Wellformed(g) && |rowMarks| == |g|
    requires forall k :: 0 <= k < |g| ==> !rowMarks[k]
    requires forall l :: 0 <= l < Width(g) ==> !ColumnMarked(g, l)
    ensures !rowMarks[0] && Prune(g, rowMarks) == g
  {
    SurvivorsOfUnmarked(rowMarks);
    SurvivorsOfUnmarked(ColumnMarks(g));
    var h := Prune(g, rowMarks);
    forall r | 0 <= r < |g|
      ensures h[r] == g[r]
    {
      assert |g[r]| == Width(g);
    }
  }

  /** Row i lies entrywise at or below row k (equal rows included). */
  predicate RowLeq(g: Grid, i: nat, k: nat)
    requires Wellformed(g) && i < |g| && k < |g|
  {
    forall j :: 0 <= j < Width(g) ==> g[i][j] <= g[k][j]
  }

  /** Column j lies entrywise at or below column l. */
  predicate ColumnLeq(g: Grid, j: nat, l: nat)
    requires Wellformed(g) && j < Width(g) && l < Width(g)
  {
    forall i :: 0 <= i < |g| ==> g[i][j] <= g[i][l]
  }

  /** Row i lies at or below one of the kept rows rs. */
  predicate HasRowAbove(g: Grid, rs: seq<nat>, i: nat)
    requires Wellformed(g) && i < |g| && forall r :: 0 <= r < |rs| ==> rs[r] < |g|
  {
    exists r :: 0 <= r < |rs| && RowLeq(g, i, rs[r])
  }

  /** Column j lies at or above one of the kept columns cs. */
  predicate HasColumnBelow(g: Grid, cs: seq<nat>, j: nat)
    requires Wellformed(g) && j < Width(g) && forall c :: 0 <= c < |cs| ==> cs[c] < Width(g)
  {
    exists c :: 0 <= c < |cs| && ColumnLeq(g, cs[c], j)
  }

  lemma RowLeqMin(g: Grid, i: nat, k: nat)
    requires Wellformed(g) && i < |g| && k < |g| && RowLeq(g, i, k)
    ensures MinOf(g[i]) <= MinOf(g[k])
  {
    assert |g[i]| == |g[k]| == Width(g);
    MinOfMonotone(g[i], g[k]);
  }

  lemma ColumnLeqMax(g: Grid, j: nat, l: nat)
    requires Wellformed(g) && j < Width(g) && l < Width(g) && ColumnLeq(g, j, l)
    ensures MaxOf(Column(g, j)) <= MaxOf(Column(g, l))
  {
    MaxOfMonotone(Column(g, j), Column(g, l));
  }

  /** Every row of g lies at or below one of the kept rows rs. */
  predicate KeepsRowsAbove(g: Grid, rs: seq<nat>)
    requires Wellformed(g) && forall r :: 0 <= r < |rs| ==> rs[r] < |g|
  {
    forall i :: 0 <= i < |g| ==> HasRowAbove(g, rs, i)
  }

  /** Every column of g lies at or above one of the kept columns cs. */
  predicate KeepsColumnsBelow(g: Grid, cs: seq<nat>)
    requires Wellformed(g) && forall c :: 0 <= c < |cs| ==> cs[c] < Width(g)
  {
    forall j :: 0 <= j < Width(g) ==> HasColumnBelow(g, cs, j)
  }

  /** Keeping a column at or below every column keeps each row's minimum. */
  lemma SubmatrixRowMin(g: Grid, rs: seq<nat>, cs: seq<nat>, r: nat)
    requires Wellformed(g) && r < |rs| && |cs| > 0
    requires forall a :: 0 <= a < |rs| ==> rs[a] < |g|
    requires forall c :: 0 <= c < |cs| ==> cs[c] < Width(g)
    requires KeepsColumnsBelow(g, cs)
    ensures |Submatrix(g, rs, cs)[r]| > 0
    ensures MinOf(Submatrix(g, rs, cs)[r]) == MinOf(g[rs[r]])
  {
    var sub := Submatrix(g, rs, cs)[r];
    var row := g[rs[r]];
    assert |row| == Width(g);
    // the minimum of the kept entries is an entry of the row
    var c :| 0 <= c < |sub| && MinOf(sub) == sub[c];
    assert sub[c] == row[cs[c]];
    // the row's minimum is matched or undercut by a kept column
    var j :| 0 <= j < |row| && MinOf(row) == row[j];
    assert HasColumnBelow(g, cs, j);
    var c' :| 0 <= c' < |cs| && ColumnLeq(g, cs[c'], j);
    assert sub[c'] == row[cs[c']] <= row[j];
  }

  /** Keeping a row at or above every row keeps each column's maximum. */
  lemma SubmatrixColumnMax(g: Grid, rs: seq<nat>, cs: seq<nat>, c: nat)
    requires Wellformed(g) && c < |cs| && |rs| > 0
    requires forall a :: 0 <= a < |rs| ==> rs[a] < |g|
    requires forall d :: 0 <= d < |cs| ==> cs[d] < Width(g)
    requires KeepsRowsAbove(g, rs)
    ensures Wellformed(Submatrix(g, rs, cs))
    ensures MaxOf(Column(Submatrix(g, rs, cs), c)) == MaxOf(Column(g, cs[c]))
  {
    var h := Submatrix(g, rs, cs);
    var sub := Column(h, c);
    var col := Column(g, cs[c]);
    // the maximum of the kept entries is an entry of the column
    var r :| 0 <= r < |sub| && MaxOf(sub) == sub[r];
    assert sub[r] == col[rs[r]];
    // the column's maximum is matched or exceeded by a kept row
    var i :| 0 <= i < |col| && MaxOf(col) == col[i];
    assert HasRowAbove(g, rs, i);
    var r' :| 0 <= r' < |rs| && RowLeq(g, i, rs[r']);
    assert col[i] <= g[rs[r']][cs[c]] == sub[r'];
  }

  /** A submatrix that keeps, for every row, one at least as good for
      player A, and for every column, one at least as good for player B,
      has the same lower value. */
  lemma SubmatrixKeepsMaximin(g: Grid, rs: seq<nat>, cs: seq<nat>)
    requires Wellformed(g) && |rs| > 0 && |cs| > 0
    requires forall a :: 0 <= a < |rs| ==> rs[a] < |g|
    requires forall c :: 0 <= c < |cs| ==> cs[c] < Width(g)
    requires KeepsRowsAbove(g, rs) && KeepsColumnsBelow(g, cs)
    ensures Wellformed(Submatrix(g, rs, cs))
    ensures Maximin(Submatrix(g, rs, cs)) == Maximin(g)
  {
    var h := Submatrix(g, rs, cs);
    SubmatrixRowMin(g, rs, cs, 0);
    assert Wellformed(h);
    SubmatrixMaximinAtMost(g, rs, cs);
    SubmatrixMaximinAtLeast(g, rs, cs);
  }

  lemma SubmatrixMaximinAtMost(g: Grid, rs: seq<nat>, cs: seq<nat>)
    requires Wellformed(g) && |rs| > 0 && |cs| > 0
    requires forall a :: 0 <= a < |rs| ==> rs[a] < |g|
    requires forall c :: 0 <= c < |cs| ==> cs[c] < Width(g)
    requires KeepsColumnsBelow(g, cs)
    requires Wellformed(Submatrix(g, rs, cs))
    ensures Maximin(Submatrix(g, rs, cs)) <= Maximin(g)
  {
    var h := Submatrix(g, rs, cs);
    // the reduced maximin is the minimum of a kept row
    var r :| 0 <= r < |h| && Maximin(h) == MinOf(h[r]);
    SubmatrixRowMin(g, rs, cs, r);
    assert MinOf(g[rs[r]]) <= Maximin(g);
  }

  lemma SubmatrixMaximinAtLeast(g: Grid, rs: seq<nat>, cs: seq<nat>)
    requires Wellformed(g) && |rs| > 0 && |cs| > 0
    requires forall a :: 0 <= a < |rs| ==> rs[a] < |g|
    requires forall c :: 0 <= c < |cs| ==> cs[c] < Width(g)
    requires KeepsRowsAbove(g, rs) && KeepsColumnsBelow(g, cs)
    requires Wellformed(Submatrix(g, rs, cs))
    ensures Maximin(g) <= Maximin(Submatrix(g, rs, cs))
  {
    var h := Submatrix(g, rs, cs);
    // the row attaining the maximin has a kept row above it
    var i :| 0 <= i < |g| && Maximin(g) == MinOf(g[i]);
    var r := KeptRowAbove(g, rs, i);
    SubmatrixRowMin(g, rs, cs, r);
    assert MinOf(h[r]) <= Maximin(h);
  }

  /** A kept row at or above row i has a minimum at least as large. */
  lemma KeptRowAbove(g: Grid, rs: seq<nat>, i: nat) returns (r: nat)
    requires Wellformed(g) && i < |g|
    requires forall a :: 0 <= a < |rs| ==> rs[a] < |g|
    requires KeepsRowsAbove(g, rs)
    ensures r < |rs| && MinOf(g[i]) <= MinOf(g[rs[r]])
  {
    assert HasRowAbove(g, rs, i);
    r :| 0 <= r < |rs| && RowLeq(g, i, rs[r]);
    RowLeqMin(g, i, rs[r]);
  }

  /** The same submatrix has the same upper value. */
  lemma SubmatrixKeepsMinimax(g: Grid, rs: seq<nat>, cs: seq<nat>)
    requires Wellformed(g) && |rs| > 0 && |cs| > 0
    requires forall a :: 0 <= a < |rs| ==> rs[a] < |g|
    requires forall c :: 0 <= c < |cs| ==> cs[c] < Width(g)
    requires KeepsRowsAbove(g, rs) && KeepsColumnsBelow(g, cs)
    ensures Wellformed(Submatrix(g, rs, cs))
    ensures Minimax(Submatrix(g, rs, cs)) == Minimax(g)
  {
    SubmatrixColumnMax(g, rs, cs, 0);
    SubmatrixMinimaxAtLeast(g, rs, cs);
    SubmatrixMinimaxAtMost(g, rs, cs);
  }

  lemma SubmatrixMinimaxAtLeast(g: Grid, rs: seq<nat>, cs: seq<nat>)
    requires Wellformed(g) && |rs| > 0 && |cs| > 0
    requires forall a :: 0 <= a < |rs| ==> rs[a] < |g|
    requires forall c :: 0 <= c < |cs| ==> cs[c] < Width(g)
    requires KeepsRowsAbove(g, rs)
    requires Wellformed(Submatrix(g, rs, cs))
    ensures Minimax(g) <= Minimax(Submatrix(g, rs, cs))
  {
    var h := Submatrix(g, rs, cs);
    // the reduced minimax is the maximum of a kept column
    assert Width(h) == |cs|;
    var c :| 0 <= c < Width(h) && Minimax(h) == MaxOf(Column(h, c));
    SubmatrixColumnMax(g, rs, cs, c);
    assert Minimax(g) <= MaxOf(Column(g, cs[c]));
  }

  lemma SubmatrixMinimaxAtMost(g: Grid, rs: seq<nat>, cs: seq<nat>)
    requires Wellformed(g) && |rs| > 0 && |cs| > 0
    requires forall a :: 0 <= a < |rs| ==> rs[a] < |g|
    requires forall c :: 0 <= c < |cs| ==> cs[c] < Width(g)
    requires KeepsRowsAbove(g, rs) && KeepsColumnsBelow(g, cs)
    requires Wellformed(Submatrix(g, rs, cs))
    ensures Minimax(Submatrix(g, rs, cs)) <= Minimax(g)
  {
    var h := Submatrix(g, rs, cs);
    // the column attaining the minimax has a kept column below it
    var j :| 0 <= j < Width(g) && Minimax(g) == MaxOf(Column(g, j));
    assert HasColumnBelow(g, cs, j);
    var c :| 0 <= c < |cs| && ColumnLeq(g, cs[c], j);
    ColumnLeqMax(g, cs[c], j);
    SubmatrixColumnMax(g, rs, cs, c);
    assert Width(h) == |cs|;
    assert Minimax(h) <= MaxOf(Column(h, c));
  }

  /** The columns the solver keeps lie at or below every column. */
  lemma KeptColumnsBelow(g: Grid)
    requires Wellformed(g)
    ensures KeepsColumnsBelow(g, Survivors(ColumnMarks(g)))
  {
    var cs := Survivors(ColumnMarks(g));
    forall j | 0 <= j < Width(g)
      ensures HasColumnBelow(g, cs, j)
    {
      var j' := SomeColumnSurvives(g, j);
      var c := SurvivorPosition(ColumnMarks(g), j');
      assert ColumnLeq(g, cs[c], j);
    }
  }

  /** The rows the intended rule keeps lie at or above every row. */
  lemma KeptRowsAboveIntended(g: Grid)
    requires Wellformed(g)
    ensures KeepsRowsAbove(g, Survivors(RowMarksIntended(g)))
  {
    var rs := Survivors(RowMarksIntended(g));
    forall i | 0 <= i < |g|
      ensures HasRowAbove(g, rs, i)
    {
      var i' := SomeRowSurvivesIntended(g, i);
      var r := SurvivorPosition(RowMarksIntended(g), i');
      assert RowLeq(g, i, rs[r]);
    }
  }

  /** The intended reduction leaves both values of the game unchanged. */
  lemma IntendedKeepsValues(g: Grid)
    requires Wellformed(g)
    ensures Maximin(ReduceIntended(g)) == Maximin(g)
    ensures Minimax(ReduceIntended(g)) == Minimax(g)
  {
    var rs := Survivors(RowMarksIntended(g));
    var cs := Survivors(ColumnMarks(g));
    KeptRowsAboveIntended(g);
    KeptColumnsBelow(g);
    var i := SomeRowSurvivesIntended(g, 0);
    var _ := SurvivorPosition(RowMarksIntended(g), i);
    var j := SomeColumnSurvives(g, 0);
    var _ := SurvivorPosition(ColumnMarks(g), j);
    SubmatrixKeepsMaximin(g, rs, cs);
    SubmatrixKeepsMinimax(g, rs, cs);
  }
}
