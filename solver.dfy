/** The solver window: the matrix dimensions it keeps as fields, and the
    methods that compute the game's bounds and saddle points, prune
    dominated rows and columns, and choose the verdict. Each method is
    proved to compute the corresponding function on matrix values. */
module GameMatrix {
  import opened Matrices
  import opened Saddles
  import opened Dominance
  import opened TwoByTwo
  import opened Game

  /** The array holds exactly the entries of the matrix value g. */
  ghost predicate Holds(m: array2<int>, g: Grid)
    reads m
  {
    && |g| == m.Length0
    && (forall i :: 0 <= i < |g| ==> |g[i]| == m.Length1)
    && (forall i, j :: 0 <= i < m.Length0 && 0 <= j < m.Length1 ==> g[i][j] == m[i, j])
  }

  /** The array holds exactly the entries of the sequence s. */
  ghost predicate Lists(a: array<int>, s: seq<int>)
    reads a
  {
    a.Length == |s| && forall k :: 0 <= k < |s| ==> a[k] == s[k]
  }

  /** Some row other than k, among rows 0 .. n-1, lies below row k. */
  ghost predicate RowMarkedBy(g: Grid, n: nat, k: nat)
    requires Wellformed(g) && n <= |g| && k < |g|
  {
    exists i :: 0 <= i < n && i != k && RowBelow(g, i, k)
  }

  /** Some row other than k, among rows 0 .. n-1, lies above row k. */
  ghost predicate RowMarkedAboveBy(g: Grid, n: nat, k: nat)
    requires Wellformed(g) && n <= |g| && k < |g|
  {
    exists i :: 0 <= i < n && i != k && RowBelow(g, k, i)
  }

  /** Some column other than l, among columns 0 .. n-1, lies below column l. */
  ghost predicate ColumnMarkedBy(g: Grid, n: nat, l: nat)
    requires Wellformed(g) && n <= Width(g) && l < Width(g)
  {
    exists j :: 0 <= j < n && j != l && ColumnBelow(g, j, l)
  }

  lemma RowMarkedByStep(g: Grid, n: nat, k: nat)
    requires Wellformed(g) && n < |g| && k < |g|
    ensures RowMarkedBy(g, n + 1, k) <==> RowMarkedBy(g, n, k) || (n != k && RowBelow(g, n, k))
  {
    if RowMarkedBy(g, n + 1, k) {
      var i :| 0 <= i < n + 1 && i != k && RowBelow(g, i, k);
      if i < n {
        assert RowMarkedBy(g, n, k);
      }
    }
  }

  lemma RowMarkedAboveByStep(g: Grid, n: nat, k: nat)
    requires Wellformed(g) && n < |g| && k < |g|
    ensures RowMarkedAboveBy(g, n + 1, k) <==> RowMarkedAboveBy(g, n, k) || (n != k && RowBelow(g, k, n))
  {
    if RowMarkedAboveBy(g, n + 1, k) {
      var i :| 0 <= i < n + 1 && i != k && RowBelow(g, k, i);
      if i < n {
        assert RowMarkedAboveBy(g, n, k);
      }
    }
  }

  lemma ColumnMarkedByStep(g: Grid, n: nat, l: nat)
    requires Wellformed(g) && n < Width(g) && l < Width(g)
    ensures ColumnMarkedBy(g, n + 1, l) <==> ColumnMarkedBy(g, n, l) || (n != l && ColumnBelow(g, n, l))
  {
    if ColumnMarkedBy(g, n + 1, l) {
      var j :| 0 <= j < n + 1 && j != l && ColumnBelow(g, j, l);
      if j < n {
        assert ColumnMarkedBy(g, n, l);
      }
    }
  }

  /** One step of the row-major scan: cell (i, j) joins the list exactly
      when it equals both its row's minimum and its column's maximum. */
  lemma ScanStep(g: Grid, i: nat, j: nat, x: int, rowMin: int, colMax: int)
    requires Wellformed(g) && i < |g| && j < Width(g)
    requires x == g[i][j] && rowMin == RowMins(g)[i] && colMax == ColMaxs(g)[j]
    ensures SaddlesBefore(g, i, j + 1) == SaddlesBefore(g, i, j) + if x == rowMin && x == colMax then [(i, j)] else []
  {
  }

  /** An array whose cell (r, c) is g[rs[r]][cs[c]] holds that submatrix. */
  lemma HoldsSubmatrix(m: array2<int>, g: Grid, rs: seq<nat>, cs: seq<nat>)
    requires Wellformed(g)
    requires forall r :: 0 <= r < |rs| ==> rs[r] < |g|
    requires forall c :: 0 <= c < |cs| ==> cs[c] < Width(g)
    requires m.Length0 == |rs| && m.Length1 == |cs|
    requires forall r, c {:trigger m[r, c]} :: 0 <= r < |rs| && 0 <= c < |cs| ==>
               rs[r] < |g| && cs[c] < |g[rs[r]]| && m[r, c] == g[rs[r]][cs[c]]
    ensures Holds(m, Submatrix(g, rs, cs))
  {
  }

  /** A 2x2 array holds the matrix value made of its four entries. */
  lemma TwoByTwoHeld(m: array2<int>, h: Grid)
    requires m.Length0 == 2 && m.Length1 == 2 && Holds(m, h)
    ensures h == [[m[0, 0], m[0, 1]], [m[1, 0], m[1, 1]]]
  {
    assert h[0] == [m[0, 0], m[0, 1]];
    assert h[1] == [m[1, 0], m[1, 1]];
  }

  class MainWindow {
    var rows: int
    var columns: int

    /** A new window starts with a 2x2 matrix. */
    constructor ()
      ensures rows == 2 && columns == 2
    {
      rows := 2;
      columns := 2;
    }

    /** The dimensions fit the matrix, which has at least one row and one
        column. */
    predicate Fits(matrix: array2<int>)
      reads this
    {
      rows >= 1 && columns >= 1 && matrix.Length0 == rows && matrix.Length1 == columns
    }

    /** Accepts dimensions from 2 to 20 each and keeps them; anything else
        leaves the window unchanged. */
    method ParseMatrixDimensions(m: int, n: int) returns (ok: bool)
      modifies this
      ensures ok <==> 2 <= m <= 20 && 2 <= n <= 20
      ensures ok ==> rows == m && columns == n
      ensures !ok ==> rows == old(rows) && columns == old(columns)
    {
      if 2 <= m <= 20 && 2 <= n <= 20 {
        rows := m;
        columns := n;
        return true;
      }
      return false;
    }

    /** The minimum of row i, as a running minimum seeded with the row's
        first entry (in place of the largest machine integer). */
    method RowMinimum(matrix: array2<int>, ghost g: Grid, i: int) returns (rowMin: int)
      requires Fits(matrix) && Holds(matrix, g) && 0 <= i < rows
      ensures rowMin == MinOf(g[i])
    {
      ghost var row := g[i];
      rowMin := 0;
      for j := 0 to columns
        invariant j > 0 ==> rowMin == MinOf(row[..j])
      {
        MinOfExtend(row, j, rowMin);
        if j == 0 || matrix[i, j] < rowMin {
          rowMin := matrix[i, j];
        }
      }
      assert row[..columns] == row;
    }

    /** The maximum of column j, as a running maximum seeded with the
        column's first entry (in place of the smallest machine integer). */
    method ColumnMaximum(matrix: array2<int>, ghost g: Grid, j: int) returns (colMax: int)
      requires Fits(matrix) && Holds(matrix, g) && 0 <= j < columns
      ensures Wellformed(g) && colMax == MaxOf(Column(g, j))
    {
      ghost var col := Column(g, j);
      colMax := 0;
      for i := 0 to rows
        invariant i > 0 ==> colMax == MaxOf(col[..i])
      {
        MaxOfExtend(col, i, colMax);
        if i == 0 || matrix[i, j] > colMax {
          colMax := matrix[i, j];
        }
      }
      assert col[..rows] == col;
    }

    /** The smallest column maximum, seeded with the first column's. */
    method CalculateMinimax(matrix: array2<int>, ghost g: Grid) returns (minimax: int)
      requires Fits(matrix) && Holds(matrix, g)
      ensures Wellformed(g) && minimax == Minimax(g)
    {
      ghost var colMaxs := ColMaxs(g);
      minimax := 0;
      for j := 0 to columns
        invariant j > 0 ==> minimax == MinOf(colMaxs[..j])
      {
        var colMax := ColumnMaximum(matrix, g, j);
        MinOfExtend(colMaxs, j, minimax);
        if j == 0 || colMax < minimax {
          minimax := colMax;
        }
      }
      assert colMaxs[..columns] == colMaxs;
    }

    /** The largest row minimum, seeded with the first row's. */
    method CalculateMaximin(matrix: array2<int>, ghost g: Grid) returns (maximin: int)
      requires Fits(matrix) && Holds(matrix, g)
      ensures Wellformed(g) && maximin == Maximin(g)
    {
      ghost var rowMins := RowMins(g);
      maximin := 0;
      for i := 0 to rows
        invariant i > 0 ==> maximin == MaxOf(rowMins[..i])
      {
        var rowMin := RowMinimum(matrix, g, i);
        MaxOfExtend(rowMins, i, maximin);
        if i == 0 || rowMin > maximin {
          maximin := rowMin;
        }
      }
      assert rowMins[..rows] == rowMins;
    }

    /** The minimum of every row, in a new array. */
    method RowMinima(matrix: array2<int>, ghost g: Grid) returns (rowMins: array<int>)
      requires Fits(matrix) && Holds(matrix, g)
      ensures fresh(rowMins)
      ensures Wellformed(g) && Lists(rowMins, RowMins(g))
    {
      ghost var spec := RowMins(g);
      rowMins := new int[rows];
      for i := 0 to rows
        invariant forall k {:trigger rowMins[k]} :: 0 <= k < i ==> rowMins[k] == spec[k]
        modifies rowMins
      {
        var rowMin := RowMinimum(matrix, g, i);
        rowMins[i] := rowMin;
      }
    }

    /** The maximum of every column, in a new array. */
    method ColumnMaxima(matrix: array2<int>, ghost g: Grid) returns (colMaxs: array<int>)
      requires Fits(matrix) && Holds(matrix, g)
      ensures fresh(colMaxs)
      ensures Wellformed(g) && Lists(colMaxs, ColMaxs(g))
    {
      ghost var spec := ColMaxs(g);
      colMaxs := new int[columns];
      for j := 0 to columns
        invariant forall l {:trigger colMaxs[l]} :: 0 <= l < j ==> colMaxs[l] == spec[l]
        modifies colMaxs
      {
        var colMax := ColumnMaximum(matrix, g, j);
        colMaxs[j] := colMax;
      }
    }

    /** Every cell equal to both its row's minimum and its column's maximum,
        in row-major order. */
    method FindSaddlePoints(matrix: array2<int>, ghost g: Grid) returns (saddlePoints: seq<Cell>)
      requires Fits(matrix) && Holds(matrix, g)
      ensures Wellformed(g) && saddlePoints == SaddlePoints(g)
    {
      var rowMins := RowMinima(matrix, g);
      var colMaxs := ColumnMaxima(matrix, g);

      saddlePoints := [];
      for i := 0 to rows
        invariant saddlePoints == SaddlesBefore(g, i, 0)
        modifies {}
      {
        saddlePoints := ScanRow(matrix, g, rowMins, colMaxs, i, saddlePoints);
      }
      SaddlePointsScan(g);
    }

    /** Appends, left to right, every cell of row i that equals the row's
        minimum and its column's maximum. */
    method ScanRow(matrix: array2<int>, ghost g: Grid, rowMins: array<int>, colMaxs: array<int>, i: int, found: seq<Cell>)
      returns (saddlePoints: seq<Cell>)
      requires Fits(matrix) && Holds(matrix, g) && 0 <= i < rows
      requires Wellformed(g) && Lists(rowMins, RowMins(g)) && Lists(colMaxs, ColMaxs(g))
      requires found == SaddlesBefore(g, i, 0)
      ensures saddlePoints == SaddlesBefore(g, i + 1, 0)
    {
      saddlePoints := found;
      for j := 0 to columns
        invariant saddlePoints == SaddlesBefore(g, i, j)
      {
        ScanStep(g, i, j, matrix[i, j], rowMins[i], colMaxs[j]);
        if matrix[i, j] == rowMins[i] && matrix[i, j] == colMaxs[j] {
          saddlePoints := saddlePoints + [(i, j)];
        }
      }
    }

    /** Row i lies entrywise at or below row k, strictly in some column;
        the scan stops at the first column where row i is larger. */
    method IsRowDominated(matrix: array2<int>, ghost g: Grid, i: int, k: int) returns (dominated: bool)
      requires Fits(matrix) && Holds(matrix, g) && 0 <= i < rows && 0 <= k < rows
      ensures Wellformed(g) && dominated == RowBelow(g, i, k)
    {
      var strictlyLess := false;
      for j := 0 to columns
        invariant forall j' :: 0 <= j' < j ==> matrix[i, j'] <= matrix[k, j']
        invariant strictlyLess <==> exists j' :: 0 <= j' < j && matrix[i, j'] < matrix[k, j']
      {
        if matrix[i, j] > matrix[k, j] {
          return false;
        }
        if matrix[i, j] < matrix[k, j] {
          strictlyLess := true;
        }
      }
      return strictlyLess;
    }

    /** Column j lies entrywise at or below column l, strictly in some row. */
    method IsColumnDominated(matrix: array2<int>, ghost g: Grid, j: int, l: int) returns (dominated: bool)
      requires Fits(matrix) && Holds(matrix, g) && 0 <= j < columns && 0 <= l < columns
      ensures Wellformed(g) && dominated == ColumnBelow(g, j, l)
    {
      var strictlyLess := false;
      for i := 0 to rows
        invariant forall i' :: 0 <= i' < i ==> matrix[i', j] <= matrix[i', l]
        invariant strictlyLess <==> exists i' :: 0 <= i' < i && matrix[i', j] < matrix[i', l]
      {
        if matrix[i, j] > matrix[i, l] {
          return false;
        }
        if matrix[i, j] < matrix[i, l] {
          strictlyLess := true;
        }
      }
      return strictlyLess;
    }

    /** Marks row k when some other row i lies below it, testing the pair
        as the program does; a row already marked is not tested again. */
    method MarkDominatedRows(matrix: array2<int>, ghost g: Grid) returns (rowDominated: array<bool>)
      requires Fits(matrix) && Holds(matrix, g)
      ensures fresh(rowDominated) && rowDominated.Length == rows
      ensures Wellformed(g) && rowDominated[..] == RowMarks(g)
    {
      rowDominated := new bool[rows](_ => false);
      for i := 0 to rows
        invariant forall k {:trigger rowDominated[k]} :: 0 <= k < rows ==> rowDominated[k] == RowMarkedBy(g, i, k)
        modifies rowDominated
      {
        for k := 0 to rows
          invariant forall k' {:trigger rowDominated[k']} :: 0 <= k' < k ==> rowDominated[k'] == RowMarkedBy(g, i + 1, k')
          invariant forall k' {:trigger rowDominated[k']} :: k <= k' < rows ==> rowDominated[k'] == RowMarkedBy(g, i, k')
          modifies rowDominated
        {
          RowMarkedByStep(g, i, k);
          if i != k && !rowDominated[k] {
            var dominated := IsRowDominated(matrix, g, i, k);
            if dominated {
              rowDominated[k] := true;
            }
          }
        }
      }
    }

    /** The intended marking: row k is marked when it lies below some other
        row i, so that the row with the smaller payoffs is the one dropped;
        a row already marked is not tested again. */
    method MarkDominatedRowsIntended(matrix: array2<int>, ghost g: Grid) returns (rowDominated: array<bool>)
      requires Fits(matrix) && Holds(matrix, g)
      ensures fresh(rowDominated) && rowDominated.Length == rows
      ensures Wellformed(g) && rowDominated[..] == RowMarksIntended(g)
    {
      rowDominated := new bool[rows](_ => false);
      for i := 0 to rows
        invariant forall k {:trigger rowDominated[k]} :: 0 <= k < rows ==> rowDominated[k] == RowMarkedAboveBy(g, i, k)
        modifies rowDominated
      {
        for k := 0 to rows
          invariant forall k' {:trigger rowDominated[k']} :: 0 <= k' < k ==> rowDominated[k'] == RowMarkedAboveBy(g, i + 1, k')
          invariant forall k' {:trigger rowDominated[k']} :: k <= k' < rows ==> rowDominated[k'] == RowMarkedAboveBy(g, i, k')
          modifies rowDominated
        {
          RowMarkedAboveByStep(g, i, k);
          if i != k && !rowDominated[k] {
            var dominated := IsRowDominated(matrix, g, k, i);
            if dominated {
              rowDominated[k] := true;
            }
          }
        }
      }
    }

    /** Marks column l when some other column j lies below it; a column
        already marked is not tested again. */
    method MarkDominatedColumns(matrix: array2<int>, ghost g: Grid) returns (colDominated: array<bool>)
      requires Fits(matrix) && Holds(matrix, g)
      ensures fresh(colDominated) && colDominated.Length == columns
      ensures Wellformed(g) && colDominated[..] == ColumnMarks(g)
    {
      colDominated := new bool[columns](_ => false);
      for j := 0 to columns
        invariant forall l {:trigger colDominated[l]} :: 0 <= l < columns ==> colDominated[l] == ColumnMarkedBy(g, j, l)
        modifies colDominated
      {
        for l := 0 to columns
          invariant forall l' {:trigger colDominated[l']} :: 0 <= l' < l ==> colDominated[l'] == ColumnMarkedBy(g, j + 1, l')
          invariant forall l' {:trigger colDominated[l']} :: l <= l' < columns ==> colDominated[l'] == ColumnMarkedBy(g, j, l')
          modifies colDominated
        {
          ColumnMarkedByStep(g, j, l);
          if j != l && !colDominated[l] {
            var dominated := IsColumnDominated(matrix, g, j, l);
            if dominated {
              colDominated[l] := true;
            }
          }
        }
      }
    }

    /** One pass of dominance pruning, as the program runs it: marks every
        row that some other row lies below and every column that some other
        column lies below, copies the unmarked cells into a new array, and
        shrinks the dimensions to match. */
    method ReduceMatrix(matrix: array2<int>, ghost g: Grid) returns (reducedMatrix: array2<int>)
      requires Fits(matrix) && Holds(matrix, g)
      modifies this
      ensures fresh(reducedMatrix)
      ensures Fits(reducedMatrix)
      ensures Wellformed(g) && Holds(reducedMatrix, Reduce(g))
    {
      var rowDominated := MarkDominatedRows(matrix, g);
      ghost var kept := SomeRowSurvives(g, 0);
      assert !RowMarks(g)[kept];
      reducedMatrix := PruneMarked(matrix, g, rowDominated, RowMarks(g));
    }

    /** The same pass with rows marked the intended way. */
    method ReduceMatrixIntended(matrix: array2<int>, ghost g: Grid) returns (reducedMatrix: array2<int>)
      requires Fits(matrix) && Holds(matrix, g)
      modifies this
      ensures fresh(reducedMatrix)
      ensures Fits(reducedMatrix)
      ensures Wellformed(g) && Holds(reducedMatrix, ReduceIntended(g))
    {
      var rowDominated := MarkDominatedRowsIntended(matrix, g);
      ghost var kept := SomeRowSurvivesIntended(g, 0);
      assert !RowMarksIntended(g)[kept];
      reducedMatrix := PruneMarked(matrix, g, rowDominated, RowMarksIntended(g));
    }

    /** Given the row marks, marks the columns, copies the unmarked cells
        into a new array and shrinks the dimensions to match. */
    method PruneMarked(matrix: array2<int>, ghost g: Grid, rowDominated: array<bool>, ghost rowMarks: seq<bool>)
      returns (reducedMatrix: array2<int>)
      requires Fits(matrix) && Holds(matrix, g)
      requires rowDominated.Length == rows && rowDominated[..] == rowMarks
      requires exists k :: 0 <= k < |rowMarks| && !rowMarks[k]
      modifies this
      ensures fresh(reducedMatrix)
      ensures Fits(reducedMatrix)
      ensures Wellformed(g) && |rowMarks| == |g| && Holds(reducedMatrix, Prune(g, rowMarks))
    {
      var colDominated := MarkDominatedColumns(matrix, g);

      var newRows := rows - CountMarked(rowDominated[..]);
      var newColumns := columns - CountMarked(colDominated[..]);
      reducedMatrix := CopyUnmarked(matrix, g, rowDominated, colDominated, rowMarks, newRows, newColumns);
      rows := newRows;
      columns := newColumns;
    }

    /** Copies the cells whose row and column are both unmarked into a new
        newRows x newColumns array, keeping their order: the pruned
        matrix. */
    method CopyUnmarked(matrix: array2<int>, ghost g: Grid, rowDominated: array<bool>, colDominated: array<bool>,
                        ghost rowMarks: seq<bool>, newRows: int, newColumns: int)
      returns (reducedMatrix: array2<int>)
      requires Fits(matrix) && Holds(matrix, g)
      requires rowDominated.Length == rows && colDominated.Length == columns
      requires Wellformed(g) && rowDominated[..] == rowMarks && colDominated[..] == ColumnMarks(g)
      requires exists k :: 0 <= k < |rowMarks| && !rowMarks[k]
      requires newRows == rows - CountMarked(rowMarks) && newColumns == columns - CountMarked(ColumnMarks(g))
      ensures fresh(reducedMatrix)
      ensures reducedMatrix.Length0 == newRows >= 1 && reducedMatrix.Length1 == newColumns >= 1
      ensures |rowMarks| == |g| && Holds(reducedMatrix, Prune(g, rowMarks))
    {
      ghost var rs, cs, rowPos, colPos := PruneLayout(g, rowMarks);
      reducedMatrix := CopyKept(matrix, g, rowDominated, colDominated, newRows, newColumns,
                                rowMarks, ColumnMarks(g), rs, cs, rowPos, colPos);
    }

    /** The copying loop: rs and cs are the unmarked rows and columns of the
        marks, rowPos and colPos where each lands. */
    method CopyKept(matrix: array2<int>, ghost g: Grid, rowDominated: array<bool>, colDominated: array<bool>,
                    newRows: int, newColumns: int, ghost rowMarks: seq<bool>, ghost colMarks: seq<bool>,
                    ghost rs: seq<nat>, ghost cs: seq<nat>, ghost rowPos: seq<nat>, ghost colPos: seq<nat>)
      returns (reducedMatrix: array2<int>)
      requires Fits(matrix) && Holds(matrix, g)
      requires rowDominated.Length == rows && colDominated.Length == columns
      requires rowDominated[..] == rowMarks && colDominated[..] == colMarks
      requires ScanPositions(rowMarks, rs, rowPos) && ScanPositions(colMarks, cs, colPos)
      requires newRows == |rs| && newColumns == |cs|
      ensures fresh(reducedMatrix)
      ensures reducedMatrix.Length0 == newRows && reducedMatrix.Length1 == newColumns
      ensures Wellformed(g) && Holds(reducedMatrix, Submatrix(g, rs, cs))
    {
      reducedMatrix := new int[newRows, newColumns];
      var newRow := 0;
      for i := 0 to rows
        invariant newRow == rowPos[i] && newRow <= newRows
        invariant forall r, c {:trigger reducedMatrix[r, c]} :: 0 <= r < newRow && 0 <= c < newColumns ==>
                    rs[r] < |g| && cs[c] < |g[rs[r]]| && reducedMatrix[r, c] == g[rs[r]][cs[c]]
      {
        if rowDominated[i] {
          continue;
        }
        CopyRow(matrix, g, colDominated, reducedMatrix, i, newRow, cs, colPos);
        newRow := newRow + 1;
      }
      HoldsSubmatrix(reducedMatrix, g, rs, cs);
    }

    /** Copies the unmarked cells of row i, left to right, into row newRow
        of reducedMatrix; the other rows are left as they were. */
    method CopyRow(matrix: array2<int>, ghost g: Grid, colDominated: array<bool>, reducedMatrix: array2<int>,
                   i: int, newRow: int, ghost cs: seq<nat>, ghost colPos: seq<nat>)
      requires Fits(matrix) && Holds(matrix, g) && 0 <= i < rows
      requires colDominated.Length == columns && reducedMatrix != matrix
      requires 0 <= newRow < reducedMatrix.Length0 && reducedMatrix.Length1 == |cs|
      requires ScanPositions(colDominated[..], cs, colPos)
      modifies reducedMatrix
      ensures forall c {:trigger reducedMatrix[newRow, c]} :: 0 <= c < |cs| ==>
                cs[c] < |g[i]| && reducedMatrix[newRow, c] == g[i][cs[c]]
      ensures forall r, c {:trigger reducedMatrix[r, c]} :: 0 <= r < reducedMatrix.Length0 && r != newRow && 0 <= c < |cs| ==>
                reducedMatrix[r, c] == old(reducedMatrix[r, c])
    {
      ghost var row := g[i];
      ghost var want := seq(|cs|, c requires 0 <= c < |cs| => if cs[c] < |row| then row[cs[c]] else 0);
      var newCol := 0;
      for j := 0 to columns
        invariant newCol == colPos[j] && newCol <= |cs|
        invariant forall c {:trigger reducedMatrix[newRow, c]} :: 0 <= c < newCol ==> reducedMatrix[newRow, c] == want[c]
        invariant forall r, c {:trigger reducedMatrix[r, c]} :: 0 <= r < reducedMatrix.Length0 && r != newRow && 0 <= c < |cs| ==>
                    reducedMatrix[r, c] == old(reducedMatrix[r, c])
      {
        if colDominated[j] {
          continue;
        }
        assert want[newCol] == matrix[i, j];
        reducedMatrix[newRow, newCol] := matrix[i, j];
        newCol := newCol + 1;
      }
    }

    /** The whole solver, as the program runs it: report the bounds; list
        the saddle points if there are any; otherwise prune once when the
        matrix is larger than 2x2 and, if that leaves 2x2, solve it in
        mixed strategies. */
    method SolveGame(matrix: array2<int>, ghost g: Grid) returns (solution: Solution)
      requires Fits(matrix) && Holds(matrix, g)
      modifies this
      ensures Wellformed(g) && solution == Solve(g)
      ensures if |SaddlePoints(g)| == 0 && (old(rows) > 2 || old(columns) > 2)
        then rows == |Reduce(g)| && columns == Width(Reduce(g))
        else rows == old(rows) && columns == old(columns)
    {
      var minimax := CalculateMinimax(matrix, g);
      var maximin := CalculateMaximin(matrix, g);
      var saddlePoints := FindSaddlePoints(matrix, g);
      SolveReportsBounds(g);
      if |saddlePoints| > 0 {
        solution := Solution(maximin, minimax, PureStrategy(saddlePoints));
        return;
      }
      var verdict := SolveWithoutSaddle(matrix, g);
      solution := Solution(maximin, minimax, verdict);
    }

    /** The branch without saddle points, as the program runs it: prune
        once when the matrix is larger than 2x2 and, if that leaves 2x2,
        report p for player A and q for player B. */
    method SolveWithoutSaddle(matrix: array2<int>, ghost g: Grid) returns (verdict: Verdict)
      requires Fits(matrix) && Holds(matrix, g)
      modifies this
      ensures Wellformed(g) && verdict == CandidateVerdict(Candidate(g))
      ensures if old(rows) > 2 || old(columns) > 2
        then rows == |Reduce(g)| && columns == Width(Reduce(g))
        else rows == old(rows) && columns == old(columns)
    {
      ghost var h := Candidate(g);
      var m := matrix;
      if rows > 2 || columns > 2 {
        m := ReduceMatrix(m, g);
      }
      assert Holds(m, h) && Fits(m);
      if rows == 2 && columns == 2 {
        var game := [[m[0, 0], m[0, 1]], [m[1, 0], m[1, 1]]];
        TwoByTwoHeld(m, h);
        match SolveTwoByTwo(m[0, 0], m[0, 1], m[1, 0], m[1, 1])
        case ZeroDenominator =>
          verdict := Unsolvable(DegenerateTwoByTwo);
        case Formulas(p, q) =>
          verdict := MixedStrategy(game, Strategies(p, q));
      } else {
        verdict := Unsolvable(CannotReduceToTwoByTwo);
      }
    }

    /** The solver with both corrections: rows pruned the intended way and
        each probability reported for its own player. */
    method SolveGameIntended(matrix: array2<int>, ghost g: Grid) returns (solution: Solution)
      requires Fits(matrix) && Holds(matrix, g)
      modifies this
      ensures Wellformed(g) && solution == SolveIntended(g)
      ensures if |SaddlePoints(g)| == 0 && (old(rows) > 2 || old(columns) > 2)
        then rows == |ReduceIntended(g)| && columns == Width(ReduceIntended(g))
        else rows == old(rows) && columns == old(columns)
    {
      var minimax := CalculateMinimax(matrix, g);
      var maximin := CalculateMaximin(matrix, g);
      var saddlePoints := FindSaddlePoints(matrix, g);
      SolveReportsBounds(g);
      if |saddlePoints| > 0 {
        solution := Solution(maximin, minimax, PureStrategy(saddlePoints));
        return;
      }
      var verdict := SolveWithoutSaddleIntended(matrix, g);
      solution := Solution(maximin, minimax, verdict);
    }

    /** The branch without saddle points, corrected: prune rows the intended
        way and report q for player A and p for player B. */
    method SolveWithoutSaddleIntended(matrix: array2<int>, ghost g: Grid) returns (verdict: Verdict)
      requires Fits(matrix) && Holds(matrix, g)
      modifies this
      ensures Wellformed(g) && verdict == CandidateVerdictIntended(CandidateIntended(g))
      ensures if old(rows) > 2 || old(columns) > 2
        then rows == |ReduceIntended(g)| && columns == Width(ReduceIntended(g))
        else rows == old(rows) && columns == old(columns)
    {
      ghost var h := CandidateIntended(g);
      var m := matrix;
      if rows > 2 || columns > 2 {
        m := ReduceMatrixIntended(m, g);
      }
      assert Holds(m, h) && Fits(m);
      if rows == 2 && columns == 2 {
        var game := [[m[0, 0], m[0, 1]], [m[1, 0], m[1, 1]]];
        TwoByTwoHeld(m, h);
        match SolveTwoByTwo(m[0, 0], m[0, 1], m[1, 0], m[1, 1])
        case ZeroDenominator =>
          verdict := Unsolvable(DegenerateTwoByTwo);
        case Formulas(p, q) =>
          verdict := MixedStrategy(game, Strategies(q, p));
      } else {
        verdict := Unsolvable(CannotReduceToTwoByTwo);
      }
    }
  }
}
