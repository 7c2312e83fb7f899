/**
 * The comparisons the compact sequences define on their element ranges:
 * `std::equal` over two ranges and `std::lexicographical_compare`, with the
 * element type's `operator==` and `operator<` as parameters, and the facts
 * that make `<`, `>`, `<=` and `>=` built from them an order.
 */
module Lexicographic {

  /** `std::equal(f1, l1, f2, l2)` with the element `operator==` `eq`. */
  function Equal<T>(xs: seq<T>, ys: seq<T>, eq: (T, T) -> bool): (r: bool)
    ensures r <==> |xs| == |ys| && forall i :: 0 <= i < |xs| ==> eq(xs[i], ys[i])
  {
    if |xs| != |ys| then false
    else if xs == [] then true
    else eq(xs[0], ys[0]) && Equal(xs[1..], ys[1..], eq)
  }

  /** With the built-in equality as element `operator==`, `Equal` is sequence equality. */
  lemma EqualIsEquality<T>(xs: seq<T>, ys: seq<T>, eq: (T, T) -> bool)
    requires forall x, y :: eq(x, y) <==> x == y
    ensures Equal(xs, ys, eq) <==> xs == ys
  {
    if Equal(xs, ys, eq) {
      assert forall i :: 0 <= i < |xs| ==> xs[i] == ys[i];
    }
  }

  /** `std::lexicographical_compare(f1, l1, f2, l2)` with the element `operator<` `less`. */
  function LexLess<T>(xs: seq<T>, ys: seq<T>, less: (T, T) -> bool): (r: bool)
    ensures r ==> ys != []
    ensures xs == [] ==> (r <==> ys != [])
  {
    if ys == [] then false
    else if xs == [] then true
    else if less(xs[0], ys[0]) then true
    else if less(ys[0], xs[0]) then false
    else LexLess(xs[1..], ys[1..], less)
  }

  /** Neither element is less than the other. */
  predicate Equiv<T>(x: T, y: T, less: (T, T) -> bool) {
    !less(x, y) && !less(y, x)
  }

  /** The first `k` elements of both ranges are pairwise equivalent. */
  predicate SamePrefix<T>(xs: seq<T>, ys: seq<T>, k: nat, less: (T, T) -> bool)
    requires k <= |xs| && k <= |ys|
  {
    forall i :: 0 <= i < k ==> Equiv(xs[i], ys[i], less)
  }

  /**
   * The meaning of the comparison: `xs` is less exactly when, after a common
   * equivalent prefix, either `xs` runs out first or its next element is less.
   */
  lemma {:induction false} LexLessWitness<T>(xs: seq<T>, ys: seq<T>, less: (T, T) -> bool)
    ensures LexLess(xs, ys, less) <==>
      exists k :: 0 <= k <= |xs| && k <= |ys| && SamePrefix(xs, ys, k, less) &&
        ((k == |xs| && k < |ys|) || (k < |xs| && k < |ys| && less(xs[k], ys[k])))
  {
    if ys == [] || xs == [] {
      if xs == [] && ys != [] {
        assert SamePrefix(xs, ys, 0, less);
      }
    } else if less(xs[0], ys[0]) {
      assert SamePrefix(xs, ys, 0, less);
    } else if less(ys[0], xs[0]) {
      forall k | 0 < k <= |xs| && k <= |ys|
        ensures !SamePrefix(xs, ys, k, less)
      {
        assert !Equiv(xs[0], ys[0], less);
      }
    } else {
      LexLessWitness(xs[1..], ys[1..], less);
      if LexLess(xs, ys, less) {
        var k :| 0 <= k <= |xs| - 1 && k <= |ys| - 1 && SamePrefix(xs[1..], ys[1..], k, less) &&
          ((k == |xs| - 1 && k < |ys| - 1) || (k < |xs| - 1 && k < |ys| - 1 && less(xs[1..][k], ys[1..][k])));
        assert SamePrefix(xs, ys, k + 1, less) by {
          forall i | 0 <= i < k + 1 ensures Equiv(xs[i], ys[i], less) {
            if i > 0 {
              assert Equiv(xs[1..][i - 1], ys[1..][i - 1], less);
            }
          }
        }
      } else {
        forall k | 0 <= k <= |xs| && k <= |ys| && SamePrefix(xs, ys, k, less)
          ensures !((k == |xs| && k < |ys|) || (k < |xs| && k < |ys| && less(xs[k], ys[k])))
        {
          if k > 0 {
            assert SamePrefix(xs[1..], ys[1..], k - 1, less) by {
              forall i | 0 <= i < k - 1 ensures Equiv(xs[1..][i], ys[1..][i], less) {
                assert Equiv(xs[i + 1], ys[i + 1], less);
              }
            }
            if k < |xs| && k < |ys| {
              assert xs[k] == xs[1..][k - 1] && ys[k] == ys[1..][k - 1];
            }
          }
        }
      }
    }
  }

  /** `operator<` on the elements is a strict weak order, as `std::lexicographical_compare` requires. */
  ghost predicate StrictWeakOrder<T(!new)>(less: (T, T) -> bool) {
    && (forall x :: !less(x, x))
    && (forall x, y, z :: less(x, y) && less(y, z) ==> less(x, z))
    && (forall x, y, z :: Equiv(x, y, less) && Equiv(y, z, less) ==> Equiv(x, z, less))
  }

  /** No range is less than itself. */
  lemma {:induction false} LexIrreflexive<T(!new)>(xs: seq<T>, less: (T, T) -> bool)
    requires StrictWeakOrder(less)
    ensures !LexLess(xs, xs, less)
  {
    if xs != [] {
      LexIrreflexive(xs[1..], less);
    }
  }

  /** Lexicographic comparison over a strict weak order is transitive. */
  lemma {:induction false} LexTransitive<T(!new)>(xs: seq<T>, ys: seq<T>, zs: seq<T>, less: (T, T) -> bool)
    requires StrictWeakOrder(less)
    requires LexLess(xs, ys, less) && LexLess(ys, zs, less)
    ensures LexLess(xs, zs, less)
  {
    assert ys != [] && zs != [];
    if xs != [] {
      var x, y, z := xs[0], ys[0], zs[0];
      if less(x, y) {
        if !less(y, z) {
          LessThenEquiv(x, y, z, less);
        }
      } else if less(y, z) {
        EquivThenLess(x, y, z, less);
      } else {
        assert Equiv(x, y, less) && Equiv(y, z, less);
        LexTransitive(xs[1..], ys[1..], zs[1..], less);
      }
    }
  }

  /** Equivalence chains. */
  lemma EquivTransitive<T(!new)>(x: T, y: T, z: T, less: (T, T) -> bool)
    requires StrictWeakOrder(less)
    ensures Equiv(x, y, less) && Equiv(y, z, less) ==> Equiv(x, z, less)
  {
  }

  /** Less than something equivalent to `z` is less than `z`. */
  lemma LessThenEquiv<T(!new)>(x: T, y: T, z: T, less: (T, T) -> bool)
    requires StrictWeakOrder(less)
    requires less(x, y) && Equiv(y, z, less)
    ensures less(x, z)
  {
    EquivTransitive(x, z, y, less);
    if less(z, x) {
      assert false;
    } else if !less(x, z) {
      assert false;
    }
  }

  /** Equivalent to something less than `z` is less than `z`. */
  lemma EquivThenLess<T(!new)>(x: T, y: T, z: T, less: (T, T) -> bool)
    requires StrictWeakOrder(less)
    requires Equiv(x, y, less) && less(y, z)
    ensures less(x, z)
  {
    EquivTransitive(y, x, z, less);
    if less(z, x) {
      assert false;
    } else if !less(x, z) {
      assert false;
    }
  }

  /** Lexicographic comparison is asymmetric. */
  lemma {:induction false} LexAsymmetric<T(!new)>(xs: seq<T>, ys: seq<T>, less: (T, T) -> bool)
    requires StrictWeakOrder(less)
    requires LexLess(xs, ys, less)
    ensures !LexLess(ys, xs, less)
  {
    if LexLess(ys, xs, less) {
      LexTransitive(xs, ys, xs, less);
      LexIrreflexive(xs, less);
    }
  }

  /**
   * When equivalent elements are equal (a strict total order), two ranges are
   * equal, or exactly one is less than the other.
   */
  lemma {:induction false} LexTrichotomy<T(!new)>(xs: seq<T>, ys: seq<T>, less: (T, T) -> bool)
    requires StrictWeakOrder(less)
    requires forall x, y :: Equiv(x, y, less) ==> x == y
    ensures LexLess(xs, ys, less) || xs == ys || LexLess(ys, xs, less)
    ensures LexLess(xs, ys, less) ==> xs != ys && !LexLess(ys, xs, less)
    ensures xs == ys ==> !LexLess(xs, ys, less)
  {
    LexIrreflexive(xs, less);
    if LexLess(xs, ys, less) {
      LexAsymmetric(xs, ys, less);
    }
    if xs != [] && ys != [] && Equiv(xs[0], ys[0], less) {
      LexTrichotomy(xs[1..], ys[1..], less);
      if xs[1..] == ys[1..] {
        assert xs == [xs[0]] + xs[1..] && ys == [ys[0]] + ys[1..];
      }
    }
  }
}
