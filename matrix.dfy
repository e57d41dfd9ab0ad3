/** Payoff matrices of a two-player zero-sum game, as values, and the two
    bounds of the game: the maximin (best row minimum, what player A can
    secure with one row) and the minimax (smallest column maximum, what
    player B can hold A to with one column). */
module Matrices {

  /** Player A's payoffs, row by row: g[i][j] is what A wins (and B loses)
      when A plays row i and B plays column j. */
  type Grid = seq<seq<int>>

  /** A rectangular matrix with at least one row and one column. */
  predicate Wellformed(g: Grid) {
    |g| > 0 && |g[0]| > 0 && forall i :: 0 <= i < |g| ==> |g[i]| == |g[0]|
  }

  /** Number of columns. */
  function Width(g: Grid): nat
    requires |g| > 0
  {
    |g[0]|
  }

  /** Smallest element, computed as a running minimum over the sequence,
      the way the solver's loops scan a row. */
  function MinOf(s: seq<int>): (r: int)
    requires |s| > 0
    ensures forall k :: 0 <= k < |s| ==> r <= s[k]
    ensures exists k :: 0 <= k < |s| && r == s[k]
  {
    if |s| == 1 then s[0]
    else
      var m := MinOf(s[..|s| - 1]);
      assert forall k :: 0 <= k < |s| - 1 ==> s[..|s| - 1][k] == s[k];
      if s[|s| - 1] < m then s[|s| - 1] else m
  }

  /** Largest element, computed as a running maximum. */
  function MaxOf(s: seq<int>): (r: int)
    requires |s| > 0
    ensures forall k :: 0 <= k < |s| ==> s[k] <= r
    ensures exists k :: 0 <= k < |s| && r == s[k]
  {
    if |s| == 1 then s[0]
    else
      var m := MaxOf(s[..|s| - 1]);
      assert forall k :: 0 <= k < |s| - 1 ==> s[..|s| - 1][k] == s[k];
      if s[|s| - 1] > m then s[|s| - 1] else m
  }

  /** Column j of the matrix, top to bottom. */
  function Column(g: Grid, j: nat): (c: seq<int>)
    requires Wellformed(g) && j < Width(g)
    ensures |c| == |g| && forall i :: 0 <= i < |g| ==> c[i] == g[i][j]
  {
    seq(|g|, i requires 0 <= i < |g| => g[i][j])
  }

  /** The minimum of every row. */
  function RowMins(g: Grid): (s: seq<int>)
    requires Wellformed(g)
    ensures |s| == |g| && forall i :: 0 <= i < |g| ==> s[i] == MinOf(g[i])
  {
    seq(|g|, i requires 0 <= i < |g| => MinOf(g[i]))
  }

  /** The maximum of every column. */
  function ColMaxs(g: Grid): (s: seq<int>)
    requires Wellformed(g)
    ensures |s| == Width(g) && forall j :: 0 <= j < Width(g) ==> s[j] == MaxOf(Column(g, j))
  {
    seq(Width(g), j requires 0 <= j < Width(g) => MaxOf(Column(g, j)))
  }

  /** The lower value of the game: it is the minimum of some row, no row
      has a larger minimum, and it is an entry of the matrix. */
  function Maximin(g: Grid): (r: int)
    requires Wellformed(g)
    ensures exists i :: 0 <= i < |g| && r == MinOf(g[i])
    ensures forall i :: 0 <= i < |g| ==> MinOf(g[i]) <= r
    ensures exists i, j :: 0 <= i < |g| && 0 <= j < Width(g) && r == g[i][j]
  {
    var rowMins := RowMins(g);
    var r := MaxOf(rowMins);
    assert exists i, j :: 0 <= i < |g| && 0 <= j < Width(g) && r == g[i][j] by {
      var i :| 0 <= i < |g| && r == rowMins[i];
      var j :| 0 <= j < |g[i]| && MinOf(g[i]) == g[i][j];
      assert r == g[i][j];
    }
    r
  }

  /** The upper value of the game: it is the maximum of some column, no
      column has a smaller maximum, and it is an entry of the matrix. */
  function Minimax(g: Grid): (r: int)
    requires Wellformed(g)
    ensures exists j :: 0 <= j < Width(g) && r == MaxOf(Column(g, j))
    ensures forall j :: 0 <= j < Width(g) ==> r <= MaxOf(Column(g, j))
    ensures exists i, j :: 0 <= i < |g| && 0 <= j < Width(g) && r == g[i][j]
  {
    var colMaxs := ColMaxs(g);
    var r := MinOf(colMaxs);
    assert exists i, j :: 0 <= i < |g| && 0 <= j < Width(g) && r == g[i][j] by {
      var j :| 0 <= j < Width(g) && r == colMaxs[j];
      var i :| 0 <= i < |g| && MaxOf(Column(g, j)) == Column(g, j)[i];
      assert r == g[i][j];
    }
    r
  }

  /** The lower value never exceeds the upper value: the row attaining the
      maximin and the column attaining the minimax meet in a cell that is
      at least the former and at most the latter. */
  lemma MaximinLeMinimax(g: Grid)
    requires Wellformed(g)
    ensures Maximin(g) <= Minimax(g)
  {
    var i :| 0 <= i < |g| && Maximin(g) == MinOf(g[i]);
    var j :| 0 <= j < Width(g) && Minimax(g) == MaxOf(Column(g, j));
    assert |g[i]| == Width(g);
    assert MinOf(g[i]) <= g[i][j];
    assert g[i][j] == Column(g, j)[i] <= MaxOf(Column(g, j));
  }

  /** A row that lies entrywise at or above another has a minimum at least
      as large. */
  lemma MinOfMonotone(s: seq<int>, t: seq<int>)
    requires |s| == |t| > 0
    requires forall k :: 0 <= k < |s| ==> s[k] <= t[k]
    ensures MinOf(s) <= MinOf(t)
  {
    var k :| 0 <= k < |t| && MinOf(t) == t[k];
    assert MinOf(s) <= s[k];
  }

  /** A column that lies entrywise at or above another has a maximum at
      least as large. */
  lemma MaxOfMonotone(s: seq<int>, t: seq<int>)
    requires |s| == |t| > 0
    requires forall k :: 0 <= k < |s| ==> s[k] <= t[k]
    ensures MaxOf(s) <= MaxOf(t)
  {
    var k :| 0 <= k < |s| && MaxOf(s) == s[k];
    assert t[k] <= MaxOf(t);
  }

  /** One step of the running minimum: given the minimum of the first j
      elements (any value when j is 0), the guarded update yields the
      minimum of the first j + 1. */
  lemma MinOfExtend(s: seq<int>, j: nat, current: int)
    requires j < |s|
    requires j > 0 ==> current == MinOf(s[..j])
    ensures (if j == 0 || s[j] < current then s[j] else current) == MinOf(s[..j + 1])
  {
    assert s[..j + 1][..j] == s[..j];
  }

  /** One step of the running maximum. */
  lemma MaxOfExtend(s: seq<int>, j: nat, current: int)
    requires j < |s|
    requires j > 0 ==> current == MaxOf(s[..j])
    ensures (if j == 0 || s[j] > current then s[j] else current) == MaxOf(s[..j + 1])
  {
    assert s[..j + 1][..j] == s[..j];
  }
}
