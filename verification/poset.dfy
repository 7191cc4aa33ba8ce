/** The comparison operators that `PosetCat` derives from a single `lessThan`
    primitive (Geo/Chain.h, lines 30-66). Every operator takes the primitive as
    a parameter, so the results hold for any type that supplies one. */
module Poset {

  /** `operator<` */
  function Less<T>(lessThan: (T, T) -> bool, t1: T, t2: T): bool {
    lessThan(t1, t2)
  }

  /** `operator>`: the plain negation of `lessThan`, so it is not strict. */
  function Greater<T>(lessThan: (T, T) -> bool, t1: T, t2: T): (r: bool)
    ensures r <==> !Less(lessThan, t1, t2)
  {
    !lessThan(t1, t2)
  }

  /** `operator==`: true only when `lessThan` holds in both directions. */
  function Equal<T>(lessThan: (T, T) -> bool, t1: T, t2: T): bool {
    if lessThan(t1, t2) && lessThan(t2, t1) then true else false
  }

  /** `operator!=` */
  function NotEqual<T>(lessThan: (T, T) -> bool, t1: T, t2: T): (r: bool)
    ensures r <==> !Equal(lessThan, t1, t2)
  {
    if lessThan(t1, t2) && lessThan(t2, t1) then false else true
  }

  /** `operator<=` */
  function LessEq<T>(lessThan: (T, T) -> bool, t1: T, t2: T): bool {
    if lessThan(t1, t2) || Equal(lessThan, t1, t2) then true else false
  }

  /** `operator>=` */
  function GreaterEq<T>(lessThan: (T, T) -> bool, t1: T, t2: T): bool {
    if !lessThan(t1, t2) || Equal(lessThan, t1, t2) then true else false
  }

  ghost predicate Asymmetric<T(!new)>(lessThan: (T, T) -> bool) {
    forall a, b :: lessThan(a, b) ==> !lessThan(b, a)
  }

  ghost predicate Transitive<T(!new)>(lessThan: (T, T) -> bool) {
    forall a, b, c :: lessThan(a, b) && lessThan(b, c) ==> lessThan(a, c)
  }

  /** The strict weak order that a `std::map` key comparison must be. */
  ghost predicate StrictOrder<T(!new)>(lessThan: (T, T) -> bool) {
    Asymmetric(lessThan) && Transitive(lessThan)
  }

  /** Under a strict order `operator==` never holds, not even of a value and
      itself, and `operator!=` always holds. */
  lemma StrictOrderHasNoEqualPair<T(!new)>(lessThan: (T, T) -> bool, t1: T, t2: T)
    requires Asymmetric(lessThan)
    ensures !Equal(lessThan, t1, t2)
    ensures NotEqual(lessThan, t1, t2)
  {
    if lessThan(t1, t2) {
      assert !lessThan(t2, t1);
    }
  }

  /** Under a strict order `<=` collapses to `<`, `>=` to `>`, and `>` holds of
      every value against itself. */
  lemma StrictOrderDerivedOperators<T(!new)>(lessThan: (T, T) -> bool, t: T, t1: T, t2: T)
    requires Asymmetric(lessThan)
    ensures LessEq(lessThan, t1, t2) <==> Less(lessThan, t1, t2)
    ensures GreaterEq(lessThan, t1, t2) <==> Greater(lessThan, t1, t2)
    ensures Greater(lessThan, t, t)
  {
    StrictOrderHasNoEqualPair(lessThan, t1, t2);
    assert lessThan(t, t) ==> !lessThan(t, t);
  }

  /** `<` and `>` are complementary: exactly one holds of any pair. */
  lemma LessGreaterExclusive<T>(lessThan: (T, T) -> bool, t1: T, t2: T)
    ensures Less(lessThan, t1, t2) != Greater(lessThan, t1, t2)
  {
  }
}
