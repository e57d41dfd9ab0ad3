/** Saddle points: cells that are the minimum of their row and the maximum
    of their column, listed in row-major order. */
module Saddles {
  import opened Matrices

  /** A cell of the matrix, (row, column), both zero-based. */
  type Cell = (nat, nat)

  /** Cell (i, j) equals its row's minimum and its column's maximum. */
  predicate IsSaddle(g: Grid, i: nat, j: nat)
    requires Wellformed(g) && i < |g| && j < Width(g)
  {
    g[i][j] == MinOf(g[i]) && g[i][j] == MaxOf(Column(g, j))
  }

  /** c comes strictly before d in row-major order. */
  predicate Before(c: Cell, d: Cell) {
    c.0 < d.0 || (c.0 == d.0 && c.1 < d.1)
  }

  /** Strictly increasing in row-major order, so also free of repeats. */
  predicate RowMajor(ps: seq<Cell>) {
    forall a, b :: 0 <= a < b < |ps| ==> Before(ps[a], ps[b])
  }

  /** The saddle points among the cells before (i, j) in row-major order,
      in the order a row-by-row, left-to-right scan meets them. The
      position (|g|, 0) stands for the end of the matrix. */
  function SaddlesBefore(g: Grid, i: nat, j: nat): seq<Cell>
    requires Wellformed(g) && ((i < |g| && j <= Width(g)) || (i == |g| && j == 0))
    decreases i, j
  {
    if j == 0 then (if i == 0 then [] else SaddlesBefore(g, i - 1, Width(g)))
    else SaddlesBefore(g, i, j - 1) + if IsSaddle(g, i, j - 1) then [(i, j - 1)] else []
  }

  /** ps lists, in row-major order, only saddle points before (i, j). */
  predicate OnlySaddlesBefore(g: Grid, i: nat, j: nat, ps: seq<Cell>)
    requires Wellformed(g)
  {
    && RowMajor(ps)
    && forall p :: p in ps ==> p.0 < |g| && p.1 < Width(g) && IsSaddle(g, p.0, p.1) && Before(p, (i, j))
  }

  /** The scan up to (i, j) lists, in row-major order, only saddle points
      before (i, j). */
  lemma {:induction false} SaddlesBeforeSound(g: Grid, i: nat, j: nat)
    requires Wellformed(g) && ((i < |g| && j <= Width(g)) || (i == |g| && j == 0))
    ensures OnlySaddlesBefore(g, i, j, SaddlesBefore(g, i, j))
    decreases i, j, 1
  {
    if j == 0 {
      if i > 0 {
        NextRowSound(g, i);
      }
    } else {
      NextCellSound(g, i, j);
    }
  }

  /** Starting row i adds nothing to the list. */
  lemma {:induction false} NextRowSound(g: Grid, i: nat)
    requires Wellformed(g) && 0 < i <= |g|
    ensures OnlySaddlesBefore(g, i, 0, SaddlesBefore(g, i, 0))
    decreases i, 0, 0
  {
    SaddlesBeforeSound(g, i - 1, Width(g));
    var ps := SaddlesBefore(g, i - 1, Width(g));
    assert SaddlesBefore(g, i, 0) == ps;
    forall p | p in ps
      ensures Before(p, (i, 0))
    {
      assert Before(p, (i - 1, Width(g)));
    }
  }

  /** Passing cell (i, j - 1) appends it, when it is a saddle point, after
      every cell already listed. */
  lemma {:induction false} NextCellSound(g: Grid, i: nat, j: nat)
    requires Wellformed(g) && i < |g| && 0 < j <= Width(g)
    ensures OnlySaddlesBefore(g, i, j, SaddlesBefore(g, i, j))
    decreases i, j, 0
  {
    var k: nat := j - 1;
    SaddlesBeforeSound(g, i, k);
    var ps := SaddlesBefore(g, i, k);
    PassCell(g, i, k, ps);
    if IsSaddle(g, i, k) {
      assert SaddlesBefore(g, i, j) == ps + [(i, k)];
    } else {
      assert SaddlesBefore(g, i, j) == ps;
    }
  }

  /** A list of saddle points before (i, k) is still one before (i, k + 1),
      and stays one when (i, k) is a saddle point appended to it. */
  lemma PassCell(g: Grid, i: nat, k: nat, ps: seq<Cell>)
    requires Wellformed(g) && i < |g| && k < Width(g)
    requires OnlySaddlesBefore(g, i, k, ps)
    ensures OnlySaddlesBefore(g, i, k + 1, ps)
    ensures IsSaddle(g, i, k) ==> OnlySaddlesBefore(g, i, k + 1, ps + [(i, k)])
  {
    if IsSaddle(g, i, k) {
      AppendAfter(ps, (i, k));
      var qs := ps + [(i, k)];
      assert forall x :: x in qs ==> x in ps || x == (i, k);
    }
  }

  /** A cell after every listed one can be appended in row-major order. */
  lemma AppendAfter(ps: seq<Cell>, c: Cell)
    requires RowMajor(ps) && forall p :: p in ps ==> Before(p, c)
    ensures RowMajor(ps + [c])
  {
    var qs := ps + [c];
    forall a, b | 0 <= a < b < |qs|
      ensures Before(qs[a], qs[b])
    {
      if b == |ps| {
        assert qs[a] in ps;
      }
    }
  }

  /** ps holds every saddle point before (i, j). */
  predicate ListsSaddlesBefore(g: Grid, i: nat, j: nat, ps: seq<Cell>)
    requires Wellformed(g)
  {
    forall a: nat, b: nat :: a < |g| && b < Width(g) && Before((a, b), (i, j)) && IsSaddle(g, a, b) ==> (a, b) in ps
  }

  /** The scan up to (i, j) misses no saddle point before (i, j). */
  lemma {:induction false} SaddlesBeforeComplete(g: Grid, i: nat, j: nat)
    requires Wellformed(g) && ((i < |g| && j <= Width(g)) || (i == |g| && j == 0))
    ensures ListsSaddlesBefore(g, i, j, SaddlesBefore(g, i, j))
    decreases i, j, 1
  {
    if j == 0 {
      if i > 0 {
        NextRowComplete(g, i);
      }
    } else {
      NextCellComplete(g, i, j);
    }
  }

  /** Starting row i loses nothing: the cells before (i, 0) are those
      before the end of row i - 1. */
  lemma {:induction false} NextRowComplete(g: Grid, i: nat)
    requires Wellformed(g) && 0 < i <= |g|
    ensures ListsSaddlesBefore(g, i, 0, SaddlesBefore(g, i, 0))
    decreases i, 0, 0
  {
    SaddlesBeforeComplete(g, i - 1, Width(g));
    var ps := SaddlesBefore(g, i, 0);
    forall a: nat, b: nat | a < |g| && b < Width(g) && Before((a, b), (i, 0)) && IsSaddle(g, a, b)
      ensures (a, b) in ps
    {
      assert Before((a, b), (i - 1, Width(g)));
    }
  }

  /** Passing cell (i, j - 1) adds it exactly when it is a saddle point. */
  lemma {:induction false} NextCellComplete(g: Grid, i: nat, j: nat)
    requires Wellformed(g) && i < |g| && 0 < j <= Width(g)
    ensures ListsSaddlesBefore(g, i, j, SaddlesBefore(g, i, j))
    decreases i, j, 0
  {
    SaddlesBeforeComplete(g, i, j - 1);
    var k: nat := j - 1;
    var ps := SaddlesBefore(g, i, k);
    var qs := SaddlesBefore(g, i, j);
    assert qs == ps + if IsSaddle(g, i, k) then [(i, k)] else [];
    assert forall x :: x in ps ==> x in qs;
    forall a: nat, b: nat | a < |g| && b < Width(g) && Before((a, b), (i, j)) && IsSaddle(g, a, b)
      ensures (a, b) in qs
    {
      if a == i && b == k {
        assert qs[|ps|] == (a, b);
      } else {
        assert Before((a, b), (i, k));
      }
    }
  }

  /** Every saddle point of the matrix, each once, in row-major order. */
  function SaddlePoints(g: Grid): (ps: seq<Cell>)
    requires Wellformed(g)
    ensures RowMajor(ps)
    ensures forall p :: p in ps ==> p.0 < |g| && p.1 < Width(g) && IsSaddle(g, p.0, p.1)
    ensures forall i: nat, j: nat :: i < |g| && j < Width(g) ==> (IsSaddle(g, i, j) <==> (i, j) in ps)
  {
    SaddlesBeforeSound(g, |g|, 0);
    SaddlesBeforeComplete(g, |g|, 0);
    SaddlesBefore(g, |g|, 0)
  }

  /** The list of saddle points is the scan of the whole matrix. */
  lemma SaddlePointsScan(g: Grid)
    requires Wellformed(g)
    ensures SaddlePoints(g) == SaddlesBefore(g, |g|, 0)
  {
  }

  /** The value at a saddle point is both the maximin and the minimax. */
  lemma SaddleValue(g: Grid, i: nat, j: nat)
    requires Wellformed(g) && i < |g| && j < Width(g) && IsSaddle(g, i, j)
    ensures g[i][j] == Maximin(g) == Minimax(g)
  {
    SaddleIsMaximin(g, i, j);
    SaddleIsMinimax(g, i, j);
  }

  /** The maximin is at least row i's minimum, g[i][j]; and the row that
      attains it meets column j at most at the column's maximum, g[i][j]. */
  lemma SaddleIsMaximin(g: Grid, i: nat, j: nat)
    requires Wellformed(g) && i < |g| && j < Width(g) && IsSaddle(g, i, j)
    ensures g[i][j] == Maximin(g)
  {
    var col := Column(g, j);
    var i' :| 0 <= i' < |g| && Maximin(g) == MinOf(g[i']);
    assert |g[i']| == Width(g);
    assert MinOf(g[i']) <= g[i'][j] == col[i'] <= MaxOf(col);
    assert MinOf(g[i]) <= Maximin(g);
  }

  /** The minimax is at most column j's maximum, g[i][j]; and the column
      that attains it meets row i at least at the row's minimum, g[i][j]. */
  lemma SaddleIsMinimax(g: Grid, i: nat, j: nat)
    requires Wellformed(g) && i < |g| && j < Width(g) && IsSaddle(g, i, j)
    ensures g[i][j] == Minimax(g)
  {
    var j' :| 0 <= j' < Width(g) && Minimax(g) == MaxOf(Column(g, j'));
    var col := Column(g, j');
    assert |g[i]| == Width(g);
    assert MinOf(g[i]) <= g[i][j'] == col[i] <= MaxOf(col);
    assert Minimax(g) <= MaxOf(Column(g, j));
  }

  /** A matrix with a saddle point has maximin equal to minimax, and all
      its saddle points carry that common value. */
  lemma SaddlePointsShareValue(g: Grid)
    requires Wellformed(g) && |SaddlePoints(g)| > 0
    ensures Maximin(g) == Minimax(g)
    ensures forall p :: p in SaddlePoints(g) ==> g[p.0][p.1] == Maximin(g)
  {
    forall p | p in SaddlePoints(g)
      ensures g[p.0][p.1] == Maximin(g) == Minimax(g)
    {
      SaddleValue(g, p.0, p.1);
    }
    assert SaddlePoints(g)[0] in SaddlePoints(g);
  }
}
