/** The closed-form mixed-strategy formulas for a 2x2 game
        | a  b |
        | c  d |
    (rows are player A's choices, columns player B's, entries A's payoff),
    in exact rational arithmetic. */
module TwoByTwo {

  datatype Option<T> = None | Some(value: T)

  /** What the solver's formulas produce: p = (d - b) / D and
      q = (d - c) / D with D = a - b - c + d, or no value when D is zero. */
  datatype Formulas = ZeroDenominator | Formulas(p: real, q: real)

  /** A mixed-strategy profile: player A plays row 0 with probability
      rowFirst, player B plays column 0 with probability columnFirst. */
  datatype Strategies = Strategies(rowFirst: real, columnFirst: real)

  /** Player B playing column 0 with probability y leaves player A the same
      expected payoff from either row. */
  predicate RowsIndifferent(a: int, b: int, c: int, d: int, y: real) {
    y * a as real + (1.0 - y) * b as real == y * c as real + (1.0 - y) * d as real
  }

  /** Player A playing row 0 with probability x leaves player B the same
      expected payment from either column. */
  predicate ColumnsIndifferent(a: int, b: int, c: int, d: int, x: real) {
    x * a as real + (1.0 - x) * c as real == x * b as real + (1.0 - x) * d as real
  }

  /** SolveTwoByTwoMatrix. With a non-zero denominator, p is the one
      probability of column 0 that leaves A indifferent between the rows,
      and q the one probability of row 0 that leaves B indifferent between
      the columns. With a zero denominator there is no such single value. */
  function SolveTwoByTwo(a: int, b: int, c: int, d: int): (r: Formulas)
    ensures r.ZeroDenominator? <==> a - b - c + d == 0
    ensures r.Formulas? ==> forall y :: RowsIndifferent(a, b, c, d, y) <==> y == r.p
    ensures r.Formulas? ==> forall x :: ColumnsIndifferent(a, b, c, d, x) <==> x == r.q
  {
    var den := a - b - c + d;
    if den == 0 then ZeroDenominator
    else
      var p := (d - b) as real / den as real;
      var q := (d - c) as real / den as real;
      IndifferenceIsLinear(a, b, c, d);
      Formulas(p, q)
  }

  /** Both indifference conditions are one linear equation with the
      denominator as coefficient. */
  lemma IndifferenceIsLinear(a: int, b: int, c: int, d: int)
    ensures forall y :: RowsIndifferent(a, b, c, d, y) <==> y * (a - b - c + d) as real == (d - b) as real
    ensures forall x :: ColumnsIndifferent(a, b, c, d, x) <==> x * (a - b - c + d) as real == (d - c) as real
  {
  }

  /** With a zero denominator no probability singles itself out: either
      every value leaves A indifferent (when d == b) or none does. */
  lemma ZeroDenominatorHasNoUniqueP(a: int, b: int, c: int, d: int)
    requires a - b - c + d == 0
    ensures forall y :: RowsIndifferent(a, b, c, d, y) <==> d == b
    ensures forall x :: ColumnsIndifferent(a, b, c, d, x) <==> d == c
  {
    IndifferenceIsLinear(a, b, c, d);
  }

  /** No cell of the 2x2 matrix is both its row's minimum and its column's
      maximum. */
  predicate SaddleFree(a: int, b: int, c: int, d: int) {
    && !(a <= b && a >= c)
    && !(b <= a && b >= d)
    && !(c <= d && c >= a)
    && !(d <= c && d >= b)
  }

  /** Without a saddle point the diagonal beats the other diagonal (or the
      reverse), so the denominator is non-zero and both probabilities lie
      strictly between 0 and 1. */
  lemma SaddleFreeIsInterior(a: int, b: int, c: int, d: int)
    requires SaddleFree(a, b, c, d)
    ensures SolveTwoByTwo(a, b, c, d).Formulas?
    ensures 0.0 < SolveTwoByTwo(a, b, c, d).p < 1.0
    ensures 0.0 < SolveTwoByTwo(a, b, c, d).q < 1.0
  {
    var den := a - b - c + d;
    assert (den > 0 && 0 < d - b < den && 0 < d - c < den) || (den < 0 && den < d - b < 0 && den < d - c < 0);
    FractionInUnitInterval(d - b, den);
    FractionInUnitInterval(d - c, den);
  }

  /** n / m lies strictly between 0 and 1 when n lies strictly between 0 and
      m (of either sign). */
  lemma FractionInUnitInterval(n: int, m: int)
    requires (0 < n < m) || (m < n < 0)
    ensures 0.0 < n as real / m as real < 1.0
  {
  }

  /** The formulas with the players' roles put right: A's probability of
      row 0 is the one that leaves B indifferent (the solver's q), and B's
      probability of column 0 is the one that leaves A indifferent (the
      solver's p). */
  function Equilibrium(a: int, b: int, c: int, d: int): (r: Option<Strategies>)
    ensures r.None? <==> a - b - c + d == 0
    ensures r.Some? ==> ColumnsIndifferent(a, b, c, d, r.value.rowFirst)
    ensures r.Some? ==> RowsIndifferent(a, b, c, d, r.value.columnFirst)
  {
    match SolveTwoByTwo(a, b, c, d)
    case ZeroDenominator => None
    case Formulas(p, q) => Some(Strategies(q, p))
  }

  /** The formulas under the players the solver prints them for: player A
      is shown p and player B is shown q. Each printed probability is the
      one that leaves its own player, not the opponent, indifferent. */
  function PrintedStrategies(a: int, b: int, c: int, d: int): (r: Option<Strategies>)
    ensures r.None? <==> a - b - c + d == 0
    ensures r.Some? ==> RowsIndifferent(a, b, c, d, r.value.rowFirst)
    ensures r.Some? ==> ColumnsIndifferent(a, b, c, d, r.value.columnFirst)
  {
    match SolveTwoByTwo(a, b, c, d)
    case ZeroDenominator => None
    case Formulas(p, q) => Some(Strategies(p, q))
  }

  /** The printed profile is the equilibrium with the two probabilities
      exchanged. */
  lemma PrintedIsSwapped(a: int, b: int, c: int, d: int)
    ensures PrintedStrategies(a, b, c, d).None? <==> Equilibrium(a, b, c, d).None?
    ensures Equilibrium(a, b, c, d).Some? ==>
      PrintedStrategies(a, b, c, d).value
        == Strategies(Equilibrium(a, b, c, d).value.columnFirst, Equilibrium(a, b, c, d).value.rowFirst)
  {
  }

  /** The worked example: a = 2, b = 5, c = 4, d = 3 gives p = 1/2 and
      q = 1/4. The value the solver reports as player A's probability (p)
      does not leave B indifferent; q, reported as player B's, does. */
  lemma PrintedLabelsSwapped()
    ensures SolveTwoByTwo(2, 5, 4, 3) == Formulas(0.5, 0.25)
    ensures !ColumnsIndifferent(2, 5, 4, 3, SolveTwoByTwo(2, 5, 4, 3).p)
    ensures ColumnsIndifferent(2, 5, 4, 3, SolveTwoByTwo(2, 5, 4, 3).q)
    ensures PrintedStrategies(2, 5, 4, 3) == Some(Strategies(0.5, 0.25))
    ensures Equilibrium(2, 5, 4, 3) == Some(Strategies(0.25, 0.5))
  {
    assert (3 - 5) as real / (2 - 5 - 4 + 3) as real == 0.5;
    assert (3 - 4) as real / (2 - 5 - 4 + 3) as real == 0.25;
  }

  /** The degenerate example: a = 2, b = 4, c = 1, d = 3 has a zero
      denominator and yields no probabilities. */
  lemma DegenerateExample()
    ensures SolveTwoByTwo(2, 4, 1, 3) == ZeroDenominator
    ensures Equilibrium(2, 4, 1, 3) == None
  {
  }
}
