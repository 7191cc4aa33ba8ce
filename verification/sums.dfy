/** Finite sums of integers over a set of keys. The chain operations accumulate
    over the entries of a `std::map` in key order; an integer sum does not
    depend on that order, which `SumOverRemove` makes precise. */
module Sums {

  /** The sum of `f` over `ks`, taking the keys in an unspecified order. */
  ghost function SumOver<K>(ks: set<K>, f: K -> int): int
    decreases |ks|
  {
    if ks == {} then 0
    else
      var k :| k in ks;
      f(k) + SumOver(ks - {k}, f)
  }

  /** Any key may be taken first: the sum is independent of the order. */
  lemma {:induction false} SumOverRemove<K>(ks: set<K>, f: K -> int, x: K)
    requires x in ks
    ensures SumOver(ks, f) == f(x) + SumOver(ks - {x}, f)
    decreases |ks|
  {
    var y :| y in ks && SumOver(ks, f) == f(y) + SumOver(ks - {y}, f);
    if y != x {
      assert x in ks - {y};
      SumOverRemove(ks - {y}, f, x);
      assert y in ks - {x};
      SumOverRemove(ks - {x}, f, y);
      assert ks - {y} - {x} == ks - {x} - {y};
    }
  }

  /** Adding a fresh key adds its value. */
  lemma SumOverInsert<K>(ks: set<K>, f: K -> int, x: K)
    requires x !in ks
    ensures SumOver(ks + {x}, f) == f(x) + SumOver(ks, f)
  {
    SumOverRemove(ks + {x}, f, x);
    assert ks + {x} - {x} == ks;
  }

  /** Functions that agree on `ks` have the same sum over `ks`. */
  lemma {:induction false} SumOverCongruent<K>(ks: set<K>, f: K -> int, g: K -> int)
    requires forall k :: k in ks ==> f(k) == g(k)
    ensures SumOver(ks, f) == SumOver(ks, g)
    decreases |ks|
  {
    if ks != {} {
      var x :| x in ks;
      SumOverRemove(ks, f, x);
      SumOverRemove(ks, g, x);
      SumOverCongruent(ks - {x}, f, g);
    }
  }

  /** The sum is additive in the summand. */
  lemma {:induction false} SumOverAdd<K>(ks: set<K>, f: K -> int, g: K -> int, h: K -> int)
    requires forall k :: k in ks ==> h(k) == f(k) + g(k)
    ensures SumOver(ks, h) == SumOver(ks, f) + SumOver(ks, g)
    decreases |ks|
  {
    if ks != {} {
      var x :| x in ks;
      SumOverRemove(ks, f, x);
      SumOverRemove(ks, g, x);
      SumOverRemove(ks, h, x);
      SumOverAdd(ks - {x}, f, g, h);
    }
  }

  /** The sum is homogeneous in the summand. */
  lemma {:induction false} SumOverScale<K>(ks: set<K>, f: K -> int, g: K -> int, s: int)
    requires forall k :: k in ks ==> g(k) == s * f(k)
    ensures SumOver(ks, g) == s * SumOver(ks, f)
    decreases |ks|
  {
    if ks != {} {
      var x :| x in ks;
      SumOverRemove(ks, f, x);
      SumOverRemove(ks, g, x);
      SumOverScale(ks - {x}, f, g, s);
      calc {
        SumOver(ks, g);
        g(x) + SumOver(ks - {x}, g);
        s * f(x) + s * SumOver(ks - {x}, f);
        s * (f(x) + SumOver(ks - {x}, f));
      }
    }
  }

  /** Keys whose value is zero do not change the sum. */
  lemma {:induction false} SumOverExtend<K>(ks: set<K>, big: set<K>, f: K -> int)
    requires ks <= big
    requires forall k :: k in big && k !in ks ==> f(k) == 0
    ensures SumOver(big, f) == SumOver(ks, f)
    decreases |big|
  {
    if big != ks {
      var x :| x in big && x !in ks;
      SumOverRemove(big, f, x);
      SumOverExtend(ks, big - {x}, f);
    }
  }

  /** A sum of zeros is zero. */
  lemma SumOverZero<K>(ks: set<K>, f: K -> int)
    requires forall k :: k in ks ==> f(k) == 0
    ensures SumOver(ks, f) == 0
  {
    SumOverExtend({}, ks, f);
  }

  /** A sum whose only nonzero summand is at `x`. */
  lemma SumOverOnly<K>(ks: set<K>, f: K -> int, x: K)
    requires forall k :: k in ks && k != x ==> f(k) == 0
    ensures SumOver(ks, f) == if x in ks then f(x) else 0
  {
    if x in ks {
      SumOverRemove(ks, f, x);
      SumOverZero(ks - {x}, f);
    } else {
      SumOverZero(ks, f);
    }
  }
}
