/** What the chain operations of Geo/Chain.h mean: every operation is related
    to `getCoefficient`, the value a chain gives each oriented generator, and
    the loops over a `std::map` are proved equal to order-free closed forms. */
module ChainLaws {
  import opened Sums
  import opened Chains

  // ---------------------------------------------------------------------
  // Orientation

  lemma OrientationSymmetric(o: Orientation, a: Elem, b: Elem)
    requires OrientationLaws(o)
    requires KeyOf(a) == KeyOf(b)
    ensures o(a, b) == o(b, a)
    ensures o(a, b) * o(a, b) == 1
  {
    assert Through(o, a, b, a) == o(a, a);
  }

  /** Comparing `h` against `s` is the same as going through `g`. */
  lemma OrientationThrough(o: Orientation, h: Elem, g: Elem, s: Elem)
    requires OrientationLaws(o)
    requires KeyOf(h) == KeyOf(g) == KeyOf(s)
    ensures o(g, s) * o(h, s) == o(h, g)
  {
    OrientationSymmetric(o, g, s);
    assert Through(o, h, g, s) == o(h, s);
    assert o(g, s) * o(g, s) == 1;
    calc {
      o(g, s) * o(h, s);
      o(g, s) * (o(h, g) * o(g, s));
      o(h, g) * (o(g, s) * o(g, s));
    }
  }

  // ---------------------------------------------------------------------
  // getCoefficient and addElemChain

  /** A stored generator reads back its own coefficient. */
  lemma CoefficientOfStored(o: Orientation, c: Chain, k: Key)
    requires OrientationLaws(o) && Valid(c)
    requires k in c.terms
    ensures Coefficient(o, c, c.terms[k].gen) == c.terms[k].coeff
  {
  }

  /** A valid chain whose every coefficient reads zero has no entries. */
  lemma ZeroCoefficientsMeanNoTerms(o: Orientation, c: Chain)
    requires OrientationLaws(o) && Valid(c)
    requires forall h :: Coefficient(o, c, h) == 0
    ensures c.terms == map[]
  {
    if c.terms != map[] {
      var k :| k in c.terms;
      CoefficientOfStored(o, c, k);
      assert false;
    }
  }

  lemma MulAssociates(a: int, b: int, c: int)
    ensures a * (b * c) == (a * b) * c
  {
  }

  lemma UpdateArithmetic(a: int, coeff: int, x: int, y: int, z: int)
    requires x * y == z
    ensures (a + coeff * x) * y == a * y + coeff * z
  {
    calc {
      (a + coeff * x) * y;
      a * y + (coeff * x) * y;
      a * y + coeff * (x * y);
    }
  }

  /** The change `addElemChain(g, coeff)` makes to the coefficient of `h`:
      `coeff` seen in `h`'s orientation when `h` is the same generator as `g`,
      whichever orientation the chain stores. */
  lemma AddElemCoefficient(o: Orientation, c: Chain, g: Elem, coeff: int, h: Elem)
    requires OrientationLaws(o) && Valid(c)
    requires c.dim == -1 || c.dim == g.dim
    ensures Coefficient(o, AddElem(o, c, g, coeff), h)
         == Coefficient(o, c, h) + (if KeyOf(h) == KeyOf(g) then coeff * o(h, g) else 0)
  {
    var r := AddElem(o, c, g, coeff);
    var k := KeyOf(g);
    if coeff == 0 {
    } else if KeyOf(h) != k {
      assert (KeyOf(h) in r.terms) == (KeyOf(h) in c.terms);
    } else if k !in c.terms {
      assert r.terms[k] == Term(g, coeff);
    } else {
      var s := c.terms[k];
      var updated := s.coeff + coeff * o(g, s.gen);
      OrientationThrough(o, h, g, s.gen);
      UpdateArithmetic(s.coeff, coeff, o(g, s.gen), o(h, s.gen), o(h, g));
      if updated != 0 {
        assert r.terms[k] == Term(s.gen, updated);
      } else {
        assert k !in r.terms;
      }
    }
  }

  // ---------------------------------------------------------------------
  // operator+=

  /** Two chains whose sum the loop of `operator+=` accepts term by term. */
  predicate Compatible(a: Chain, b: Chain) {
    b.terms == map[] || a.dim == -1 || a.dim == b.dim
  }

  /** The coefficients of the entries `ts` of a chain of dimension `d`. */
  function TermsCoefficient(o: Orientation, ts: map<Key, Term>, h: Elem): int {
    Coefficient(o, Chain(0, ts, ""), h)
  }

  lemma {:induction false} AddTermsCoefficient(o: Orientation, c: Chain, ts: map<Key, Term>, d: nat, h: Elem)
    requires OrientationLaws(o) && Valid(c) && WellFiled(ts, d)
    requires ts == map[] || c.dim == -1 || c.dim == d
    ensures Coefficient(o, AddTerms(o, c, ts), h) == Coefficient(o, c, h) + TermsCoefficient(o, ts, h)
    ensures AddTerms(o, c, ts).dim == if ts == map[] then c.dim else d
    decreases |ts|
  {
    if ts != map[] {
      var k :| k in ts && AddTerms(o, c, ts) == AddTerms(o, AddElem(o, c, ts[k].gen, ts[k].coeff), ts - {k});
      var c' := AddElem(o, c, ts[k].gen, ts[k].coeff);
      var rest := ts - {k};
      assert |rest| < |ts| by {
        assert rest.Keys == ts.Keys - {k};
      }
      AddElemCoefficient(o, c, ts[k].gen, ts[k].coeff, h);
      AddTermsCoefficient(o, c', rest, d, h);
      if KeyOf(h) == k {
        assert KeyOf(h) !in rest;
      } else {
        assert (KeyOf(h) in rest) == (KeyOf(h) in ts);
      }
    }
  }

  /** `operator+=` is additive on coefficients: the stored orientations of the
      two chains do not matter. */
  lemma PlusCoefficient(o: Orientation, a: Chain, b: Chain, h: Elem)
    requires OrientationLaws(o) && Valid(a) && Valid(b) && Compatible(a, b)
    ensures Coefficient(o, Plus(o, a, b), h) == Coefficient(o, a, h) + Coefficient(o, b, h)
    ensures Plus(o, a, b).dim == if b.terms == map[] then a.dim else b.dim
  {
    if b.terms == map[] {
      AddTermsCoefficient(o, a, b.terms, 0, h);
    } else {
      AddTermsCoefficient(o, a, b.terms, b.dim, h);
    }
  }

  /** Every add is refused when the dimensions clash: the chain is unchanged. */
  lemma {:induction false} AddTermsRefused(o: Orientation, c: Chain, ts: map<Key, Term>, d: nat)
    requires WellFiled(ts, d)
    requires c.dim != -1 && c.dim != d
    ensures AddTerms(o, c, ts) == c
    decreases |ts|
  {
    if ts != map[] {
      var k :| k in ts && AddTerms(o, c, ts) == AddTerms(o, AddElem(o, c, ts[k].gen, ts[k].coeff), ts - {k});
      assert |ts - {k}| < |ts| by {
        assert (ts - {k}).Keys == ts.Keys - {k};
      }
      assert AddElem(o, c, ts[k].gen, ts[k].coeff) == c;
      AddTermsRefused(o, c, ts - {k}, d);
    }
  }

  lemma PlusRefused(o: Orientation, a: Chain, b: Chain)
    requires Valid(b)
    requires a.dim != -1 && a.dim != b.dim
    ensures Plus(o, a, b) == a
  {
    if b.terms == map[] {
    } else {
      var k :| k in b.terms;
      assert b.dim == b.terms[k].gen.dim;
      AddTermsRefused(o, a, b.terms, b.dim);
    }
  }

  // ---------------------------------------------------------------------
  // operator+= in closed form

  /** The entry the merge of `x` with `y` keeps at `k`: the entry of `x` (the
      reference orientation) moved by the entry of `y` seen in it. */
  function MergedTerm(o: Orientation, x: map<Key, Term>, y: map<Key, Term>, k: Key): Term
    requires k in x || k in y
  {
    if k in x && k in y then Term(x[k].gen, x[k].coeff + y[k].coeff * o(y[k].gen, x[k].gen))
    else if k in x then x[k]
    else y[k]
  }

  /** Order-free reference definition of the entries of `a += b`. */
  function MergeTerms(o: Orientation, x: map<Key, Term>, y: map<Key, Term>): map<Key, Term> {
    map k | k in x.Keys + y.Keys && MergedTerm(o, x, y, k).coeff != 0 :: MergedTerm(o, x, y, k)
  }

  /** Order-free reference definition of `a += b`. */
  function PlusSpec(o: Orientation, a: Chain, b: Chain): Chain {
    if b.terms == map[] || (a.dim != -1 && a.dim != b.dim) then a
    else Chain(b.dim, MergeTerms(o, a.terms, b.terms), a.name)
  }

  ghost predicate NonZeroCoefficients(x: map<Key, Term>) {
    forall k :: k in x ==> x[k].coeff != 0
  }

  lemma AddElemIsMerge(o: Orientation, c: Chain, t: Term)
    requires Valid(c) && t.coeff != 0
    requires c.dim == -1 || c.dim == t.gen.dim
    ensures AddElem(o, c, t.gen, t.coeff) == Chain(t.gen.dim, MergeTerms(o, c.terms, map[KeyOf(t.gen) := t]), c.name)
  {
    var k := KeyOf(t.gen);
    if k !in c.terms {
      assert AddElem(o, c, t.gen, t.coeff) == Chain(t.gen.dim, c.terms[k := t], c.name);
      MergeOneEntry(o, c.terms, k, t);
    } else {
      MergeOneEntry(o, c.terms, k, t);
    }
  }

  /** The merge of a single entry, in the three shapes `addElemChain` has. */
  lemma MergeOneEntry(o: Orientation, x: map<Key, Term>, k: Key, t: Term)
    requires NonZeroCoefficients(x) && t.coeff != 0
    ensures k !in x ==> MergeTerms(o, x, map[k := t]) == x[k := t]
    ensures k in x && x[k].coeff + t.coeff * o(t.gen, x[k].gen) == 0 ==> MergeTerms(o, x, map[k := t]) == x - {k}
    ensures k in x && x[k].coeff + t.coeff * o(t.gen, x[k].gen) != 0
      ==> MergeTerms(o, x, map[k := t]) == x[k := Term(x[k].gen, x[k].coeff + t.coeff * o(t.gen, x[k].gen))]
  {
    var m := MergeTerms(o, x, map[k := t]);
    assert forall j :: j != k ==> (j in m <==> j in x);
    assert forall j :: j != k && j in m ==> m[j] == x[j];
  }

  /** Merging entries with disjoint generators one batch after another is
      merging them at once. */
  lemma MergeDisjoint(o: Orientation, x: map<Key, Term>, y1: map<Key, Term>, y2: map<Key, Term>)
    requires NonZeroCoefficients(x)
    requires y1.Keys !! y2.Keys
    ensures MergeTerms(o, MergeTerms(o, x, y1), y2) == MergeTerms(o, x, y1 + y2)
  {
    var lhs := MergeTerms(o, MergeTerms(o, x, y1), y2);
    var rhs := MergeTerms(o, x, y1 + y2);
    forall k | k in x.Keys + y1.Keys + y2.Keys
      ensures (k in lhs <==> k in rhs) && (k in lhs ==> lhs[k] == rhs[k])
    {
      if k in y2 {
        assert k !in y1;
      }
    }
    assert lhs.Keys <= x.Keys + y1.Keys + y2.Keys;
    assert rhs.Keys <= x.Keys + y1.Keys + y2.Keys;
  }

  /** One step of the loop of `operator+=`: some entry is added first. */
  lemma AddTermsStep(o: Orientation, c: Chain, ts: map<Key, Term>) returns (k: Key)
    requires ts != map[]
    ensures k in ts
    ensures AddTerms(o, c, ts) == AddTerms(o, AddElem(o, c, ts[k].gen, ts[k].coeff), ts - {k})
    ensures |ts - {k}| < |ts|
    ensures ts == map[k := ts[k]] + (ts - {k})
  {
    k :| k in ts && AddTerms(o, c, ts) == AddTerms(o, AddElem(o, c, ts[k].gen, ts[k].coeff), ts - {k});
    SplitEntry(ts, k);
  }

  lemma SplitEntry<V>(ts: map<Key, V>, k: Key)
    requires k in ts
    ensures |ts - {k}| < |ts|
    ensures ts == map[k := ts[k]] + (ts - {k})
  {
    assert (ts - {k}).Keys == ts.Keys - {k};
  }

  /** The loop of `operator+=` computes the merge whatever order it visits the
      entries in. */
  lemma {:induction false} AddTermsIsMerge(o: Orientation, c: Chain, ts: map<Key, Term>, d: nat)
    requires Valid(c) && WellFiled(ts, d) && ts != map[]
    requires c.dim == -1 || c.dim == d
    ensures AddTerms(o, c, ts) == Chain(d, MergeTerms(o, c.terms, ts), c.name)
    decreases |ts|
  {
    var k, c' := MergeFirstEntry(o, c, ts, d);
    if ts - {k} == map[] {
      MergeOnlyEntry(o, c, c', ts, k, d);
    } else {
      AddTermsIsMerge(o, c', ts - {k}, d);
      MergeAfterStep(o, c, c', map[k := ts[k]], ts - {k}, ts, d);
    }
  }

  lemma MergeOnlyEntry(o: Orientation, c: Chain, c': Chain, ts: map<Key, Term>, k: Key, d: nat)
    requires k in ts && ts - {k} == map[]
    requires c' == Chain(d, MergeTerms(o, c.terms, map[k := ts[k]]), c.name)
    ensures AddTerms(o, c', ts - {k}) == Chain(d, MergeTerms(o, c.terms, ts), c.name)
  {
    assert forall j :: j in ts ==> j == k || j in ts - {k};
    assert ts == map[k := ts[k]];
  }

  /** The first step of the loop of `operator+=`, as a merge of one entry. */
  lemma MergeFirstEntry(o: Orientation, c: Chain, ts: map<Key, Term>, d: nat) returns (k: Key, c': Chain)
    requires Valid(c) && WellFiled(ts, d) && ts != map[]
    requires c.dim == -1 || c.dim == d
    ensures k in ts && |ts - {k}| < |ts|
    ensures ts == map[k := ts[k]] + (ts - {k})
    ensures WellFiled(ts - {k}, d)
    ensures Valid(c') && c'.dim == d && c'.name == c.name
    ensures c' == Chain(d, MergeTerms(o, c.terms, map[k := ts[k]]), c.name)
    ensures AddTerms(o, c, ts) == AddTerms(o, c', ts - {k})
  {
    k := AddTermsStep(o, c, ts);
    var t := ts[k];
    c' := AddElem(o, c, t.gen, t.coeff);
    AddElemIsMerge(o, c, t);
    assert KeyOf(t.gen) == k;
  }

  lemma MergeAfterStep(o: Orientation, c: Chain, c': Chain, single: map<Key, Term>, rest: map<Key, Term>, ts: map<Key, Term>, d: nat)
    requires Valid(c)
    requires single.Keys !! rest.Keys && ts == single + rest
    requires c' == Chain(d, MergeTerms(o, c.terms, single), c.name)
    ensures Chain(d, MergeTerms(o, c'.terms, rest), c'.name) == Chain(d, MergeTerms(o, c.terms, ts), c.name)
  {
    MergeDisjoint(o, c.terms, single, rest);
  }

  /** `a + b` equals its order-free reference definition. */
  lemma PlusIsMerge(o: Orientation, a: Chain, b: Chain)
    requires Valid(a) && Valid(b)
    ensures Plus(o, a, b) == PlusSpec(o, a, b)
  {
    if b.terms == map[] {
    } else {
      var k :| k in b.terms;
      assert b.dim == b.terms[k].gen.dim;
      if a.dim != -1 && a.dim != b.dim {
        PlusRefused(o, a, b);
      } else {
        AddTermsIsMerge(o, a, b.terms, b.dim);
      }
    }
  }

  // ---------------------------------------------------------------------
  // The derived operators of VectorSpaceCat

  /** `operator*=` scales every coefficient. */
  lemma ScaleCoefficient(o: Orientation, c: Chain, s: int, h: Elem)
    ensures Coefficient(o, Scale(c, s), h) == s * Coefficient(o, c, h)
  {
    var k := KeyOf(h);
    if s != 0 && k in c.terms {
      var t := c.terms[k];
      assert Scale(c, s).terms[k] == Term(t.gen, s * t.coeff);
      assert (s * t.coeff) * o(h, t.gen) == s * (t.coeff * o(h, t.gen));
    }
  }

  /** `1 * c == c` */
  lemma ScaleByOne(c: Chain)
    ensures Scale(c, 1) == c
  {
    var r := Scale(c, 1);
    assert forall k :: k in r.terms ==> r.terms[k] == c.terms[k];
  }

  /** `t * (s * c) == (t * s) * c`, exactly and not only on coefficients. */
  lemma ScaleTwice(c: Chain, s: int, t: int)
    ensures Scale(Scale(c, s), t) == Scale(c, t * s)
  {
    var mid := Scale(c, s);
    var lhs := Scale(mid, t);
    var rhs := Scale(c, t * s);
    if s == 0 || t == 0 {
      assert lhs.terms == map[] == rhs.terms;
    } else {
      assert lhs.terms.Keys == rhs.terms.Keys;
      forall k | k in lhs.terms
        ensures lhs.terms[k] == rhs.terms[k]
      {
        var a := c.terms[k].coeff;
        assert mid.terms[k].coeff == s * a;
        assert lhs.terms[k].coeff == t * (s * a);
        assert rhs.terms[k].coeff == (t * s) * a;
        MulAssociates(t, s, a);
      }
    }
  }

  /** `c + (-c)` has no entries left. */
  lemma NegateCancels(o: Orientation, c: Chain)
    requires OrientationLaws(o) && Valid(c)
    ensures IsZero(Plus(o, c, Negate(c).result))
  {
    var n := Negate(c).result;
    forall h
      ensures Coefficient(o, Plus(o, c, n), h) == 0
    {
      ScaleCoefficient(o, c, -1, h);
      PlusCoefficient(o, c, n, h);
    }
    ZeroCoefficientsMeanNoTerms(o, Plus(o, c, n));
  }

  /** `a - b` subtracts coefficients. */
  lemma MinusCoefficient(o: Orientation, a: Chain, b: Chain, h: Elem)
    requires OrientationLaws(o) && Valid(a) && Valid(b) && Compatible(a, b)
    ensures Coefficient(o, Minus(o, a, b), h) == Coefficient(o, a, h) - Coefficient(o, b, h)
  {
    ScaleCoefficient(o, b, -1, h);
    PlusCoefficient(o, a, Negate(b).result, h);
  }

  /** `a + b` and `b + a` give every generator the same coefficient, though
      they may store different reference orientations. */
  lemma PlusCommutes(o: Orientation, a: Chain, b: Chain, h: Elem)
    requires OrientationLaws(o) && Valid(a) && Valid(b)
    requires Compatible(a, b) && Compatible(b, a)
    ensures Coefficient(o, Plus(o, a, b), h) == Coefficient(o, Plus(o, b, a), h)
    ensures Plus(o, a, b).terms.Keys == Plus(o, b, a).terms.Keys
  {
    PlusCoefficient(o, a, b, h);
    PlusCoefficient(o, b, a, h);
    forall h' ensures Coefficient(o, Plus(o, a, b), h') == Coefficient(o, Plus(o, b, a), h') {
      PlusCoefficient(o, a, b, h');
      PlusCoefficient(o, b, a, h');
    }
    SameCoefficientsSameKeys(o, Plus(o, a, b), Plus(o, b, a));
  }

  /** Chains that agree on every coefficient hold the same generators. */
  lemma SameCoefficientsSameKeys(o: Orientation, a: Chain, b: Chain)
    requires OrientationLaws(o) && Valid(a) && Valid(b)
    requires forall h :: Coefficient(o, a, h) == Coefficient(o, b, h)
    ensures a.terms.Keys == b.terms.Keys
  {
    forall k | k in a.terms ensures k in b.terms {
      CoefficientOfStored(o, a, k);
      assert Coefficient(o, b, a.terms[k].gen) != 0;
    }
    forall k | k in b.terms ensures k in a.terms {
      CoefficientOfStored(o, b, k);
      assert Coefficient(o, a, b.terms[k].gen) != 0;
    }
  }

  /** `(a + b) + c` and `a + (b + c)` give every generator the same
      coefficient, for chains of one dimension. */
  lemma PlusAssociates(o: Orientation, a: Chain, b: Chain, c: Chain, h: Elem)
    requires OrientationLaws(o) && Valid(a) && Valid(b) && Valid(c)
    requires a.dim == b.dim == c.dim
    ensures Coefficient(o, Plus(o, Plus(o, a, b), c), h) == Coefficient(o, Plus(o, a, Plus(o, b, c)), h)
  {
    PlusCoefficient(o, a, b, h);
    PlusCoefficient(o, b, c, h);
    PlusCoefficient(o, Plus(o, a, b), c, h);
    PlusCoefficient(o, a, Plus(o, b, c), h);
  }

  /** `0 + c` holds the entries of `c`, and `c + 0 == c`. */
  lemma PlusZero(o: Orientation, c: Chain)
    requires Valid(c)
    ensures Plus(o, Zero(), c).terms == c.terms
    ensures Plus(o, c, Zero()) == c
  {
    PlusIsMerge(o, Zero(), c);
    var m := MergeTerms(o, map[], c.terms);
    assert forall k :: k in m <==> k in c.terms;
  }

  // ---------------------------------------------------------------------
  // incidence

  lemma ProductArithmetic(x: int, y: int, p: int, q: int)
    ensures (x * p) * (y * q) == x * (y * (p * q))
  {
  }

  /** One summand of `incidence` is the product of the two chains'
      coefficients of any generator with that key. */
  lemma PairingViaGen(o: Orientation, x: Chain, c: Chain, g: Elem)
    requires OrientationLaws(o) && Valid(x) && Valid(c)
    ensures Pairing(o, x, c, KeyOf(g)) == Coefficient(o, x, g) * Coefficient(o, c, g)
  {
    var k := KeyOf(g);
    if k in x.terms && k in c.terms {
      var xs := x.terms[k];
      var cs := c.terms[k];
      OrientationSymmetric(o, g, xs.gen);
      assert Through(o, xs.gen, g, cs.gen) == o(xs.gen, cs.gen);
      ProductArithmetic(xs.coeff, cs.coeff, o(g, xs.gen), o(g, cs.gen));
    } else if k in x.terms {
      assert Coefficient(o, c, x.terms[k].gen) == 0;
    }
  }

  /** Some generator filed under `k` in `a` or in `b`. */
  function GenAt(a: Chain, b: Chain, k: Key): Elem
    requires k in a.terms || k in b.terms
  {
    if k in a.terms then a.terms[k].gen else b.terms[k].gen
  }

  lemma GenAtKey(a: Chain, b: Chain, k: Key)
    requires Valid(a) && Valid(b)
    requires k in a.terms || k in b.terms
    ensures KeyOf(GenAt(a, b, k)) == k
  {
  }

  /** The keys of `a + b` are among the keys of `a` and `b`. */
  lemma PlusKeys(o: Orientation, a: Chain, b: Chain)
    requires Valid(a) && Valid(b)
    ensures Plus(o, a, b).terms.Keys <= a.terms.Keys + b.terms.Keys
  {
    PlusIsMerge(o, a, b);
  }

  lemma PairingAdditive(o: Orientation, a: Chain, b: Chain, c: Chain, k: Key)
    requires OrientationLaws(o) && Valid(a) && Valid(b) && Valid(c)
    requires Compatible(a, b)
    requires k in a.terms || k in b.terms
    ensures Pairing(o, Plus(o, a, b), c, k) == Pairing(o, a, c, k) + Pairing(o, b, c, k)
  {
    var g := GenAt(a, b, k);
    GenAtKey(a, b, k);
    PairingViaGen(o, Plus(o, a, b), c, g);
    PairingViaGen(o, a, c, g);
    PairingViaGen(o, b, c, g);
    PlusCoefficient(o, a, b, g);
    var ca, cb, cc := Coefficient(o, a, g), Coefficient(o, b, g), Coefficient(o, c, g);
    assert (ca + cb) * cc == ca * cc + cb * cc;
  }

  /** `incidence` is additive in its first argument. */
  lemma IncidenceAdditive(o: Orientation, a: Chain, b: Chain, c: Chain)
    requires OrientationLaws(o) && Valid(a) && Valid(b) && Valid(c)
    requires a.dim == b.dim == c.dim
    ensures Incidence(o, Plus(o, a, b), c) == Incidence(o, a, c) + Incidence(o, b, c)
  {
    var p := Plus(o, a, b);
    PlusCoefficient(o, a, b, Elem(0, []));
    assert p.dim == c.dim;
    var u := a.terms.Keys + b.terms.Keys;
    PlusKeys(o, a, b);
    forall k | k in u
      ensures Pairings(o, p, c)(k) == Pairings(o, a, c)(k) + Pairings(o, b, c)(k)
    {
      PairingAdditive(o, a, b, c, k);
    }
    SumOverExtend(p.terms.Keys, u, Pairings(o, p, c));
    SumOverExtend(a.terms.Keys, u, Pairings(o, a, c));
    SumOverExtend(b.terms.Keys, u, Pairings(o, b, c));
    SumOverAdd(u, Pairings(o, a, c), Pairings(o, b, c), Pairings(o, p, c));
  }

  /** `incidence` is homogeneous in its first argument. */
  lemma IncidenceHomogeneous(o: Orientation, a: Chain, c: Chain, s: int)
    ensures Incidence(o, Scale(a, s), c) == s * Incidence(o, a, c)
  {
    var sa := Scale(a, s);
    if a.dim == c.dim {
      if s == 0 {
        assert sa.terms.Keys == {};
      } else {
        forall k | k in a.terms.Keys
          ensures Pairings(o, sa, c)(k) == s * Pairings(o, a, c)(k)
        {
          MulAssociates(s, a.terms[k].coeff, Coefficient(o, c, a.terms[k].gen));
        }
        SumOverScale(a.terms.Keys, Pairings(o, a, c), Pairings(o, sa, c), s);
      }
    }
  }

  /** `incidence` is symmetric. */
  lemma IncidenceSymmetric(o: Orientation, a: Chain, b: Chain)
    requires OrientationLaws(o) && Valid(a) && Valid(b)
    ensures Incidence(o, a, b) == Incidence(o, b, a)
  {
    if a.dim == b.dim {
      var u := a.terms.Keys + b.terms.Keys;
      forall k | k in u
        ensures Pairings(o, a, b)(k) == Pairings(o, b, a)(k)
      {
        var g := GenAt(a, b, k);
        GenAtKey(a, b, k);
        PairingViaGen(o, a, b, g);
        PairingViaGen(o, b, a, g);
      }
      SumOverExtend(a.terms.Keys, u, Pairings(o, a, b));
      SumOverExtend(b.terms.Keys, u, Pairings(o, b, a));
      SumOverCongruent(u, Pairings(o, a, b), Pairings(o, b, a));
    }
  }

  /** The chain holding the single generator `g` with coefficient 1. */
  function Single(o: Orientation, g: Elem): Chain {
    AddElem(o, Zero(), g, 1)
  }

  lemma SingleShape(o: Orientation, g: Elem)
    ensures Single(o, g) == Chain(g.dim, map[KeyOf(g) := Term(g, 1)], "")
  {
  }

  lemma PairingOffKey(o: Orientation, c: Chain, e: Chain, j: Key, k: Key)
    requires Valid(c) && e.terms.Keys == {k} && j != k
    ensures Pairing(o, c, e, j) == 0
  {
    if j in c.terms {
      assert j !in e.terms.Keys;
      assert KeyOf(c.terms[j].gen) == j;
    }
  }

  /** Pairing a chain with one generator reads that generator's coefficient. */
  lemma IncidenceWithGenerator(o: Orientation, c: Chain, g: Elem)
    requires OrientationLaws(o) && Valid(c)
    requires c.dim == g.dim
    ensures Incidence(o, c, Single(o, g)) == Coefficient(o, c, g)
  {
    var e := Single(o, g);
    var k := KeyOf(g);
    SingleShape(o, g);
    var f := Pairings(o, c, e);
    forall j | j in c.terms.Keys && j != k
      ensures f(j) == 0
    {
      PairingOffKey(o, c, e, j, k);
    }
    SumOverOnly(c.terms.Keys, f, k);
    assert Incidence(o, c, e) == SumOver(c.terms.Keys, f);
    PairingViaGen(o, c, e, g);
    assert Coefficient(o, e, g) == 1;
  }

  // ---------------------------------------------------------------------
  // boundary<C> and getBoundary

  /** Every facet of a cell is one dimension lower. */
  ghost predicate FacetLaws(facets: Facets) {
    forall g: Elem, i :: 0 <= i < |facets(g)| ==> facets(g)[i].dim + 1 == g.dim
  }

  /** Reference definition of the coefficient of `h` in the elementary
      boundary: the signed facets from `i` on that are `h` up to orientation,
      each seen in `h`'s orientation. */
  function FacetContribution(o: Orientation, g: Elem, fs: seq<Elem>, i: nat, h: Elem): int
    requires i <= |fs|
    decreases |fs| - i
  {
    if i == |fs| then 0
    else FacetTerm(o, g, fs, i, h) + FacetContribution(o, g, fs, i + 1, h)
  }

  /** What facet `i` of `g` contributes to the coefficient of `h`. */
  function FacetTerm(o: Orientation, g: Elem, fs: seq<Elem>, i: nat, h: Elem): int
    requires i < |fs|
  {
    if KeyOf(fs[i]) == KeyOf(h) then FacetSign(g, i) * o(h, fs[i]) else 0
  }

  /** One iteration of the loop of `boundary<C>`. */
  lemma AddFacetStep(o: Orientation, acc: Chain, g: Elem, fs: seq<Elem>, i: nat, d: nat, h: Elem)
    requires OrientationLaws(o) && Valid(acc)
    requires i < |fs| && fs[i].dim == d
    requires acc.dim == -1 || acc.dim == d
    ensures var acc' := AddElem(o, acc, fs[i], FacetSign(g, i));
      acc'.dim == d && Coefficient(o, acc', h) == Coefficient(o, acc, h) + FacetTerm(o, g, fs, i, h)
  {
    AddElemCoefficient(o, acc, fs[i], FacetSign(g, i), h);
  }

  lemma {:induction false} AddFacetsCoefficient(o: Orientation, acc: Chain, g: Elem, fs: seq<Elem>, i: nat, d: nat, h: Elem)
    requires OrientationLaws(o) && Valid(acc)
    requires i <= |fs|
    requires forall j :: i <= j < |fs| ==> fs[j].dim == d
    requires acc.dim == -1 || acc.dim == d
    ensures Coefficient(o, AddFacets(o, acc, g, fs, i), h) == Coefficient(o, acc, h) + FacetContribution(o, g, fs, i, h)
    ensures AddFacets(o, acc, g, fs, i).dim == if i == |fs| then acc.dim else d
    decreases |fs| - i
  {
    if i < |fs| {
      var acc' := AddElem(o, acc, fs[i], FacetSign(g, i));
      assert AddFacets(o, acc, g, fs, i) == AddFacets(o, acc', g, fs, i + 1);
      AddFacetStep(o, acc, g, fs, i, d, h);
      AddFacetsCoefficient(o, acc', g, fs, i + 1, d, h);
    }
  }

  /** `boundary<C>(g)` gives `h` the signed sum over the facets of `g` that
      are `h` up to orientation: -1 for the tail of an edge, +1 otherwise. */
  lemma ElemBoundaryCoefficient(o: Orientation, facets: Facets, g: Elem, h: Elem)
    requires OrientationLaws(o) && FacetLaws(facets)
    ensures Coefficient(o, ElemBoundary(o, facets, g), h) == FacetContribution(o, g, facets(g), 0, h)
    ensures ElemBoundary(o, facets, g).dim == if facets(g) == [] then -1 else g.dim - 1
  {
    var fs := facets(g);
    if fs == [] {
    } else {
      assert fs[0].dim + 1 == g.dim;
      AddFacetsCoefficient(o, Zero(), g, fs, 0, g.dim - 1, h);
    }
  }

  /** The summand of `getBoundary` at `k`: the coefficient of `h` in the
      elementary boundary of the entry at `k`, times the entry's coefficient. */
  function BoundaryAt(o: Orientation, facets: Facets, ts: map<Key, Term>, h: Elem): Key -> int {
    k => if k in ts then ts[k].coeff * Coefficient(o, ElemBoundary(o, facets, ts[k].gen), h) else 0
  }

  /** The scaled elementary boundary of a `d`-cell fits into a chain of
      dimension `d - 1` (or an unset one). */
  lemma ScaledBoundaryFits(o: Orientation, facets: Facets, acc: Chain, t: Term, h: Elem)
    requires OrientationLaws(o) && FacetLaws(facets) && Valid(acc)
    requires acc.dim == -1 || acc.dim == t.gen.dim - 1
    ensures Compatible(acc, Scale(ElemBoundary(o, facets, t.gen), t.coeff))
    ensures Coefficient(o, Plus(o, acc, Scale(ElemBoundary(o, facets, t.gen), t.coeff)), h)
         == Coefficient(o, acc, h) + t.coeff * Coefficient(o, ElemBoundary(o, facets, t.gen), h)
    ensures var r := Plus(o, acc, Scale(ElemBoundary(o, facets, t.gen), t.coeff)); r.dim == -1 || r.dim == t.gen.dim - 1
    ensures acc.dim != -1 ==> Plus(o, acc, Scale(ElemBoundary(o, facets, t.gen), t.coeff)).dim == acc.dim
  {
    var b := ElemBoundary(o, facets, t.gen);
    ElemBoundaryCoefficient(o, facets, t.gen, h);
    ScaleCoefficient(o, b, t.coeff, h);
    PlusCoefficient(o, acc, Scale(b, t.coeff), h);
  }

  lemma {:induction false} AddBoundariesCoefficient(o: Orientation, facets: Facets, acc: Chain, ts: map<Key, Term>, d: nat, h: Elem)
    requires OrientationLaws(o) && FacetLaws(facets) && Valid(acc) && WellFiled(ts, d)
    requires acc.dim == -1 || acc.dim == d - 1
    ensures Coefficient(o, AddBoundaries(o, facets, acc, ts), h) == Coefficient(o, acc, h) + SumOver(ts.Keys, BoundaryAt(o, facets, ts, h))
    ensures AddBoundaries(o, facets, acc, ts).dim == -1 || AddBoundaries(o, facets, acc, ts).dim == d - 1
    decreases |ts|
  {
    if ts != map[] {
      var k :| k in ts && AddBoundaries(o, facets, acc, ts)
        == AddBoundaries(o, facets, Plus(o, acc, Scale(ElemBoundary(o, facets, ts[k].gen), ts[k].coeff)), ts - {k});
      SplitEntry(ts, k);
      var rest := ts - {k};
      var acc' := Plus(o, acc, Scale(ElemBoundary(o, facets, ts[k].gen), ts[k].coeff));
      ScaledBoundaryFits(o, facets, acc, ts[k], h);
      AddBoundariesCoefficient(o, facets, acc', rest, d, h);
      assert rest.Keys == ts.Keys - {k};
      SumOverRemove(ts.Keys, BoundaryAt(o, facets, ts, h), k);
      SumOverCongruent(rest.Keys, BoundaryAt(o, facets, ts, h), BoundaryAt(o, facets, rest, h));
    }
  }

  /** `getBoundary` gives `h` the sum over the entries of the chain of each
      entry's coefficient times the coefficient of `h` in its elementary
      boundary, whatever order the entries are visited in. */
  lemma BoundaryCoefficient(o: Orientation, facets: Facets, c: Chain, h: Elem)
    requires OrientationLaws(o) && FacetLaws(facets) && Valid(c)
    ensures Coefficient(o, Boundary(o, facets, c), h) == SumOver(c.terms.Keys, BoundaryAt(o, facets, c.terms, h))
    ensures Boundary(o, facets, c).dim == -1 || Boundary(o, facets, c).dim == c.dim - 1
  {
    if c.terms == map[] {
    } else {
      var k :| k in c.terms;
      AddBoundariesCoefficient(o, facets, Zero(), c.terms, c.terms[k].gen.dim, h);
    }
  }

  // ---------------------------------------------------------------------
  // getTrace(entities)

  /** The entries of `ts` whose generator lies in some listed entity. */
  function Restrict<E>(inEntity: Membership<E>, ts: map<Key, Term>, entities: seq<E>): (r: map<Key, Term>)
    ensures r.Keys <= ts.Keys
  {
    map k | k in ts && InDomain(inEntity, ts[k].gen, entities) :: ts[k]
  }

  /** Order-free reference definition of `getTrace(entities)`: a fresh chain
      holding exactly the entries in the listed entities, unchanged. */
  function TraceSpec<E>(inEntity: Membership<E>, c: Chain, entities: seq<E>): Chain {
    var kept := Restrict(inEntity, c.terms, entities);
    Chain(if kept == map[] then -1 else c.dim, kept, "")
  }

  /** Restricting with and without the entry at `k`. */
  lemma RestrictRemove<E>(inEntity: Membership<E>, ts: map<Key, Term>, entities: seq<E>, k: Key)
    requires k in ts
    ensures InDomain(inEntity, ts[k].gen, entities)
      ==> Restrict(inEntity, ts, entities) == Restrict(inEntity, ts - {k}, entities)[k := ts[k]]
    ensures !InDomain(inEntity, ts[k].gen, entities)
      ==> Restrict(inEntity, ts, entities) == Restrict(inEntity, ts - {k}, entities)
  {
  }

  lemma WellFiledRemove(ts: map<Key, Term>, d: int, k: Key)
    requires WellFiled(ts, d)
    ensures WellFiled(ts - {k}, d)
  {
  }

  /** One step of the loop of `getTrace`. */
  lemma TraceStep<E>(o: Orientation, inEntity: Membership<E>, acc: Chain, ts: map<Key, Term>, entities: seq<E>, k: Key, d: nat)
    requires Valid(acc) && WellFiled(ts, d) && k in ts
    requires acc.dim == -1 || acc.dim == d
    requires acc.terms.Keys !! ts.Keys
    ensures var acc' := if InDomain(inEntity, ts[k].gen, entities) then AddElem(o, acc, ts[k].gen, ts[k].coeff) else acc;
      && Valid(acc')
      && acc'.terms + Restrict(inEntity, ts - {k}, entities) == acc.terms + Restrict(inEntity, ts, entities)
      && acc'.name == acc.name
      && acc'.dim == (if InDomain(inEntity, ts[k].gen, entities) then d else acc.dim)
      && acc'.terms.Keys !! (ts - {k}).Keys
  {
    var t := ts[k];
    var rest := ts - {k};
    RestrictRemove(inEntity, ts, entities, k);
    if InDomain(inEntity, t.gen, entities) {
      assert KeyOf(t.gen) == k;
      assert AddElem(o, acc, t.gen, t.coeff).terms == acc.terms[k := t];
      MoveEntry(acc.terms, Restrict(inEntity, rest, entities), k, t);
    }
  }

  lemma MoveEntry(a: map<Key, Term>, b: map<Key, Term>, k: Key, t: Term)
    requires k !in a && k !in b
    ensures a[k := t] + b == a + b[k := t]
  {
  }

  /** The first step of the loop of `getTrace`, with what it does to the
      closed form. */
  lemma TraceFirst<E>(o: Orientation, inEntity: Membership<E>, acc: Chain, ts: map<Key, Term>, entities: seq<E>, d: nat)
    returns (k: Key, acc': Chain)
    requires Valid(acc) && WellFiled(ts, d) && ts != map[]
    requires acc.dim == -1 || acc.dim == d
    requires acc.terms.Keys !! ts.Keys
    ensures k in ts && |ts - {k}| < |ts| && WellFiled(ts - {k}, d)
    ensures TraceTerms(o, inEntity, acc, ts, entities) == TraceTerms(o, inEntity, acc', ts - {k}, entities)
    ensures Valid(acc') && acc'.name == acc.name && (acc'.dim == -1 || acc'.dim == d)
    ensures acc'.terms.Keys !! (ts - {k}).Keys
    ensures acc'.terms + Restrict(inEntity, ts - {k}, entities) == acc.terms + Restrict(inEntity, ts, entities)
    ensures Restrict(inEntity, ts - {k}, entities) != map[] ==> Restrict(inEntity, ts, entities) != map[]
    ensures Restrict(inEntity, ts - {k}, entities) == map[]
      ==> acc'.dim == if Restrict(inEntity, ts, entities) == map[] then acc.dim else d
  {
    k :| k in ts && TraceTerms(o, inEntity, acc, ts, entities)
      == TraceTerms(o, inEntity, if InDomain(inEntity, ts[k].gen, entities) then AddElem(o, acc, ts[k].gen, ts[k].coeff) else acc, ts - {k}, entities);
    acc' := if InDomain(inEntity, ts[k].gen, entities) then AddElem(o, acc, ts[k].gen, ts[k].coeff) else acc;
    SplitEntry(ts, k);
    WellFiledRemove(ts, d, k);
    TraceStep(o, inEntity, acc, ts, entities, k, d);
    RestrictRemove(inEntity, ts, entities, k);
    if InDomain(inEntity, ts[k].gen, entities) {
      assert k in Restrict(inEntity, ts, entities);
    }
  }

  lemma {:induction false} TraceTermsIsRestrict<E>(o: Orientation, inEntity: Membership<E>, acc: Chain, ts: map<Key, Term>, entities: seq<E>, d: nat)
    requires Valid(acc) && WellFiled(ts, d)
    requires acc.dim == -1 || acc.dim == d
    requires acc.terms.Keys !! ts.Keys
    ensures var kept := Restrict(inEntity, ts, entities);
      TraceTerms(o, inEntity, acc, ts, entities) == Chain(if kept == map[] then acc.dim else d, acc.terms + kept, acc.name)
    decreases |ts|
  {
    if ts == map[] {
      assert acc.terms + map[] == acc.terms;
    } else {
      var k, acc' := TraceFirst(o, inEntity, acc, ts, entities, d);
      TraceTermsIsRestrict(o, inEntity, acc', ts - {k}, entities, d);
    }
  }

  /** `getTrace(entities)` keeps exactly the entries whose generator lies in
      a listed entity, coefficients and stored orientations unchanged,
      whatever order it visits them in. */
  lemma TraceIsRestrict<E>(o: Orientation, inEntity: Membership<E>, c: Chain, entities: seq<E>)
    requires Valid(c)
    ensures Trace(o, inEntity, c, entities) == TraceSpec(inEntity, c, entities)
  {
    if c.terms == map[] {
      assert Restrict(inEntity, c.terms, entities) == map[];
    } else {
      var k :| k in c.terms;
      TraceTermsIsRestrict(o, inEntity, Zero(), c.terms, entities, c.terms[k].gen.dim);
      assert map[] + Restrict(inEntity, c.terms, entities) == Restrict(inEntity, c.terms, entities);
    }
  }

  /** Taking the trace twice gives the trace. */
  lemma TraceIdempotent<E>(o: Orientation, inEntity: Membership<E>, c: Chain, entities: seq<E>)
    requires Valid(c)
    ensures Trace(o, inEntity, Trace(o, inEntity, c, entities), entities) == Trace(o, inEntity, c, entities)
  {
    var t := Trace(o, inEntity, c, entities);
    TraceIsRestrict(o, inEntity, c, entities);
    TraceIsRestrict(o, inEntity, t, entities);
    assert Restrict(inEntity, t.terms, entities) == t.terms;
  }

  /** The coefficient of `h` in the trace: that of the chain when the stored
      generator lies in a listed entity, zero otherwise. */
  lemma TraceCoefficient<E>(o: Orientation, inEntity: Membership<E>, c: Chain, entities: seq<E>, h: Elem)
    requires Valid(c)
    ensures Coefficient(o, Trace(o, inEntity, c, entities), h)
         == if KeyOf(h) in c.terms && InDomain(inEntity, c.terms[KeyOf(h)].gen, entities) then Coefficient(o, c, h) else 0
  {
    TraceIsRestrict(o, inEntity, c, entities);
  }
}
