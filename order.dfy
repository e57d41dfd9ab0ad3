/** Strict orders on the indices 0 .. n-1 (of rows or of columns), and the
    fact the dominance reduction relies on: below every index there is one
    that nothing lies below. */
module Orders {

  /** R is irreflexive and transitive on the indices below n. */
  ghost predicate StrictOrderOn(n: nat, R: (nat, nat) -> bool) {
    && (forall a: nat :: a < n ==> !R(a, a))
    && (forall a: nat, b: nat, c: nat :: a < n && b < n && c < n && R(a, b) && R(b, c) ==> R(a, c))
  }

  /** The indices below n that lie below k. */
  ghost function Below(n: nat, R: (nat, nat) -> bool, k: nat): set<nat> {
    set a: nat | a < n && R(a, k)
  }

  /** Every index k is, or lies above, an index that is minimal: one that no
      index lies below. */
  lemma {:induction false} MinimalBelow(n: nat, R: (nat, nat) -> bool, k: nat) returns (m: nat)
    requires StrictOrderOn(n, R) && k < n
    ensures m < n && (m == k || R(m, k)) && forall a: nat :: a < n ==> !R(a, m)
    decreases |Below(n, R, k)|
  {
    if a: nat :| a < n && R(a, k) {
      assert Below(n, R, a) < Below(n, R, k) by {
        assert a in Below(n, R, k) && a !in Below(n, R, a);
      }
      ProperSubsetSmaller(Below(n, R, a), Below(n, R, k));
      m := MinimalBelow(n, R, a);
      assert R(m, k);
    } else {
      m := k;
      assert !R(k, k);
    }
  }

  lemma ProperSubsetSmaller(A: set<nat>, B: set<nat>)
    requires A < B
    ensures |A| < |B|
  {
    assert A != B;
    var x :| x in B && x !in A;
    assert A <= B - {x};
    SubsetNoLarger(A, B - {x});
  }

  lemma {:induction false} SubsetNoLarger(A: set<nat>, B: set<nat>)
    requires A <= B
    ensures |A| <= |B|
    decreases |B|
  {
    if A != {} {
      var x :| x in A;
      SubsetNoLarger(A - {x}, B - {x});
    }
  }
}
