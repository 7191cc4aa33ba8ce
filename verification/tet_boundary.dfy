/** The boundary of the boundary of a tetrahedron, computed by the chain
    operations of Geo/Chain.h with the reference tables of
    Geo/MTetrahedron.h: a tetrahedron's facets are its four faces in
    `faces_tetra` order, and a triangle's facets are its three sides along
    its cycle. */
module TetBoundary {
  import opened Sums
  import opened Chains
  import opened ChainLaws
  import opened TetTables
  import opened Tetrahedra

  /** `faces_tetra(f, j)`, a corner. */
  function FaceCorner(f: nat, j: nat): (c: nat)
    requires f < 4 && j < 3
    ensures c < 4 && c == Faces[f][j]
  {
    assert 0 <= Faces[f][j] < 4 by {
      FacesOmitOneCorner();
    }
    Faces[f][j]
  }

  /** `edges_tetra(e, k)`, a corner. */
  function EdgeCorner(e: nat, k: nat): (c: nat)
    requires e < 6 && k < 2
    ensures c < 4 && c == Edges[e][k]
  {
    assert 0 <= Edges[e][k] < 4 by {
      EdgesJoinCorners();
    }
    Edges[e][k]
  }

  /** Face `f` of the tetrahedron with corners `v`, its corners in the
      order `faces_tetra` lists them. */
  function FaceOf(v: seq<Vertex>, f: nat): Elem
    requires |v| == 4 && f < 4
  {
    Elem(2, [v[FaceCorner(f, 0)], v[FaceCorner(f, 1)], v[FaceCorner(f, 2)]])
  }

  /** The edge from `a` to `b`. */
  function EdgeElem(a: Vertex, b: Vertex): Elem {
    Elem(1, [a, b])
  }

  /** `getBoundaryElemChain(i)` for simplices: a tetrahedron's faces, a
      triangle's sides, an edge's two end points; no facets otherwise. */
  function SimplexFacets(g: Elem): (r: seq<Elem>)
    ensures forall i :: 0 <= i < |r| ==> r[i].dim + 1 == g.dim
  {
    var v := g.verts;
    if g.dim == 3 && |v| == 4 then [FaceOf(v, 0), FaceOf(v, 1), FaceOf(v, 2), FaceOf(v, 3)]
    else if g.dim == 2 && |v| == 3 then [EdgeElem(v[0], v[1]), EdgeElem(v[1], v[2]), EdgeElem(v[2], v[0])]
    else if g.dim == 1 && |v| == 2 then [Elem(0, [v[0]]), Elem(0, [v[1]])]
    else []
  }

  /** `compareOrientation` on edges: the two directions of an edge between
      distinct vertices have opposite orientations. */
  ghost predicate ReversesEdges(o: Orientation) {
    forall a, b :: a != b ==> o(EdgeElem(a, b), EdgeElem(b, a)) == -1
  }

  /** The elementary chains of the four faces, each with coefficient `s`. */
  function FaceTerms(v: seq<Vertex>, s: int): map<Key, Term>
    requires |v| == 4
  {
    map[KeyOf(FaceOf(v, 0)) := Term(FaceOf(v, 0), s)]
      [KeyOf(FaceOf(v, 1)) := Term(FaceOf(v, 1), s)]
      [KeyOf(FaceOf(v, 2)) := Term(FaceOf(v, 2), s)]
      [KeyOf(FaceOf(v, 3)) := Term(FaceOf(v, 3), s)]
  }

  // ---------------------------------------------------------------------
  // the first boundary

  /** The corner face `f` omits is a corner of every other face. */
  lemma FaceKeysDistinct(v: seq<Vertex>, f: nat, g: nat)
    requires DistinctCorners(v) && f < 4 && g < 4 && f != g
    ensures KeyOf(FaceOf(v, f)) != KeyOf(FaceOf(v, g))
  {
    FacesOmitOneCorner();
    var c := 3 - f;
    assert c in FaceSet(g);
    assert v[c] in KeyOf(FaceOf(v, g));
    assert c !in FaceSet(f);
    assert Faces[f][0] != c && Faces[f][1] != c && Faces[f][2] != c;
  }

  lemma AllFaceKeysDistinct(v: seq<Vertex>)
    requires DistinctCorners(v)
    ensures forall f, g :: 0 <= f < 4 && 0 <= g < 4 && f != g ==> KeyOf(FaceOf(v, f)) != KeyOf(FaceOf(v, g))
  {
    forall f, g | 0 <= f < 4 && 0 <= g < 4 && f != g
      ensures KeyOf(FaceOf(v, f)) != KeyOf(FaceOf(v, g))
    {
      FaceKeysDistinct(v, f, g);
    }
  }

  /** `boundary<C>` of a tetrahedron with distinct corners holds its four
      faces, each once with coefficient 1. */
  lemma ElemBoundaryIsFaces(o: Orientation, t: Elem)
    requires t.dim == 3 && DistinctCorners(t.verts)
    ensures ElemBoundary(o, SimplexFacets, t) == Chain(2, FaceTerms(t.verts, 1), "")
  {
    var v := t.verts;
    var fs := SimplexFacets(t);
    AllFaceKeysDistinct(v);
    var c1 := AddElem(o, Zero(), fs[0], 1);
    var c2 := AddElem(o, c1, fs[1], 1);
    var c3 := AddElem(o, c2, fs[2], 1);
    var c4 := AddElem(o, c3, fs[3], 1);
    assert AddFacets(o, Zero(), t, fs, 0) == AddFacets(o, c1, t, fs, 1) == AddFacets(o, c2, t, fs, 2)
        == AddFacets(o, c3, t, fs, 3) == c4;
  }

  /** The chain `addElemChain(t, s)` builds from nothing. */
  lemma OneTetChain(o: Orientation, t: Elem, s: int)
    requires s != 0
    ensures AddElem(o, Zero(), t, s) == Chain(t.dim, map[KeyOf(t) := Term(t, s)], "")
  {
  }

  /** Scaling the four faces with coefficient 1 gives them coefficient `s`. */
  lemma ScaleFaces(v: seq<Vertex>, s: int)
    requires DistinctCorners(v) && s != 0
    ensures Scale(Chain(2, FaceTerms(v, 1), ""), s).terms == FaceTerms(v, s)
  {
    var x := Scale(Chain(2, FaceTerms(v, 1), ""), s).terms;
    var y := FaceTerms(v, s);
    FaceEntries(v, 1);
    FaceEntries(v, s);
    assert x.Keys == y.Keys;
    forall k | k in x
      ensures x[k] == y[k]
    {
      assert x[k] == Term(FaceTerms(v, 1)[k].gen, s * FaceTerms(v, 1)[k].coeff);
    }
  }

  /** The loop of `getBoundary` over a single entry adds its scaled
      elementary boundary. */
  lemma SingleBoundary(o: Orientation, ts: map<Key, Term>, k: Key, t: Term)
    requires ts == map[k := t]
    ensures AddBoundaries(o, SimplexFacets, Zero(), ts) == Plus(o, Zero(), Scale(ElemBoundary(o, SimplexFacets, t.gen), t.coeff))
  {
    var acc := Plus(o, Zero(), Scale(ElemBoundary(o, SimplexFacets, t.gen), t.coeff));
    assert ts - {k} == map[];
    assert AddBoundaries(o, SimplexFacets, acc, map[]) == acc;
  }

  /** `getBoundary` of the chain holding one tetrahedron with coefficient
      `s != 0` holds its four faces, each with coefficient `s`. */
  lemma TetBoundaryIsFaces(o: Orientation, t: Elem, s: int)
    requires t.dim == 3 && DistinctCorners(t.verts) && s != 0
    ensures Boundary(o, SimplexFacets, AddElem(o, Zero(), t, s)).terms == FaceTerms(t.verts, s)
  {
    OneTetChain(o, t, s);
    SingleBoundary(o, map[KeyOf(t) := Term(t, s)], KeyOf(t), Term(t, s));
    ElemBoundaryIsFaces(o, t);
    var x := Scale(Chain(2, FaceTerms(t.verts, 1), ""), s);
    PlusZero(o, x);
    ScaleFaces(t.verts, s);
  }

  // ---------------------------------------------------------------------
  // the second boundary

  /** Edge `e` of the tetrahedron with corners `v`, in table direction. */
  function TetEdge(v: seq<Vertex>, e: nat): Elem
    requires |v| == 4 && e < 6
  {
    EdgeElem(v[EdgeCorner(e, 0)], v[EdgeCorner(e, 1)])
  }

  /** Side `j` of face `f`, on the vertices `v`. */
  function SideElem(v: seq<Vertex>, f: nat, j: nat): Elem
    requires |v| == 4 && f < 4 && j < 3
  {
    EdgeElem(v[FaceCorner(f, j)], v[FaceCorner(f, (j + 1) % 3)])
  }

  /** What side `j` of face `f` contributes to the coefficient of `h` in the
      second boundary, before scaling by the tetrahedron's coefficient. */
  function SideTerm(o: Orientation, v: seq<Vertex>, h: Elem, f: nat, j: nat): int
    requires |v| == 4 && f < 4 && j < 3
  {
    if KeyOf(SideElem(v, f, j)) == KeyOf(h) then o(h, SideElem(v, f, j)) else 0
  }

  /** The terms of the sides `n..11`, side `n % 3` of face `n / 3`. */
  function SideSum(o: Orientation, v: seq<Vertex>, h: Elem, n: nat): int
    requires |v| == 4 && n <= 12
    decreases 12 - n
  {
    if n == 12 then 0 else SideTerm(o, v, h, n / 3, n % 3) + SideSum(o, v, h, n + 1)
  }

  /** Side `j` of face `f` is facet `j` of the face. */
  lemma FacetIsSide(v: seq<Vertex>, f: nat, j: nat)
    requires |v| == 4 && f < 4 && j < 3
    ensures SimplexFacets(FaceOf(v, f))[j] == SideElem(v, f, j)
  {
    if j == 0 {
    } else if j == 1 {
    } else {
    }
  }

  /** The terms of the three sides of face `f`. */
  function FaceSides(o: Orientation, v: seq<Vertex>, h: Elem, f: nat): int
    requires |v| == 4 && f < 4
  {
    SideTerm(o, v, h, f, 0) + SideTerm(o, v, h, f, 1) + SideTerm(o, v, h, f, 2)
  }

  /** Face `f`'s elementary boundary contributes its three sides' terms. */
  lemma FaceContribution(o: Orientation, v: seq<Vertex>, f: nat, h: Elem)
    requires |v| == 4 && f < 4
    ensures var g := FaceOf(v, f);
      FacetContribution(o, g, SimplexFacets(g), 0, h) == FaceSides(o, v, h, f)
  {
    var g := FaceOf(v, f);
    var fs := SimplexFacets(g);
    FacetIsSide(v, f, 0);
    FacetIsSide(v, f, 1);
    FacetIsSide(v, f, 2);
    assert FacetContribution(o, g, fs, 3, h) == 0;
    assert FacetContribution(o, g, fs, 2, h) == SideTerm(o, v, h, f, 2);
    assert FacetContribution(o, g, fs, 1, h) == SideTerm(o, v, h, f, 1) + SideTerm(o, v, h, f, 2);
  }

  /** The twelve side terms, face by face. */
  lemma SideSumByFace(o: Orientation, v: seq<Vertex>, h: Elem)
    requires |v| == 4
    ensures SideSum(o, v, h, 0)
      == FaceSides(o, v, h, 0) + FaceSides(o, v, h, 1) + FaceSides(o, v, h, 2) + FaceSides(o, v, h, 3)
  {
    assert SideSum(o, v, h, 9) == FaceSides(o, v, h, 3);
    assert SideSum(o, v, h, 6) == FaceSides(o, v, h, 2) + SideSum(o, v, h, 9);
    assert SideSum(o, v, h, 3) == FaceSides(o, v, h, 1) + SideSum(o, v, h, 6);
  }

  /** `a = t + b` with `t = w x` and `b = w y` is `w (x + y)`. */
  lemma LinearStep(a: int, t: int, b: int, w: int, x: int, y: int, z: int)
    requires a == t + b && t == w * x && b == w * y && z == x + y
    ensures a == w * z
  {
    assert w * x + w * y == w * (x + y);
  }

  /** Two edges between distinct corners have the same vertex pair exactly
      when they join the same two corners. */
  lemma PairKey(v: seq<Vertex>, a: int, b: int, x: int, y: int)
    requires DistinctCorners(v) && IsCorner(a) && IsCorner(b) && IsCorner(x) && IsCorner(y)
    requires a != b && x != y
    ensures KeyOf(EdgeElem(v[x], v[y])) == KeyOf(EdgeElem(v[a], v[b])) <==> (x, y) == (a, b) || (x, y) == (b, a)
  {
    var kx, ka := KeyOf(EdgeElem(v[x], v[y])), KeyOf(EdgeElem(v[a], v[b]));
    if kx == ka {
      assert v[x] in ka && v[y] in ka;
      assert v[a] in kx;
    }
  }

  /** On edge `e`, a side contributes the edge's orientation with the sign
      `SideSign` gives it: +1 along the edge, -1 against it, 0 elsewhere. */
  lemma SideTermSign(o: Orientation, v: seq<Vertex>, h: Elem, e: nat, n: nat)
    requires OrientationLaws(o) && ReversesEdges(o) && DistinctCorners(v)
    requires e < 6 && n < 12 && KeyOf(h) == KeyOf(TetEdge(v, e))
    ensures SideTerm(o, v, h, n / 3, n % 3) == o(h, TetEdge(v, e)) * SideSign(e, n)
  {
    var f, j := n / 3, n % 3;
    var p := Side(f, j);
    assert p == (FaceCorner(f, j), FaceCorner(f, (j + 1) % 3));
    assert p.0 != p.1 by {
      FacesOmitOneCorner();
    }
    var a, b := EdgeCorner(e, 0), EdgeCorner(e, 1);
    assert a != b by {
      EdgesJoinCorners();
    }
    PairKey(v, a, b, p.0, p.1);
    var ab, ba := EdgeElem(v[a], v[b]), EdgeElem(v[b], v[a]);
    if p == (b, a) {
      assert KeyOf(ab) == KeyOf(ba);
      assert Through(o, h, ab, ba) == o(h, ba);
      assert o(ab, ba) == -1;
    }
  }

  /** If every side from `n` on contributes `w` times its sign on edge `e`,
      the sides from `n` on sum to `w` times the signed count. */
  lemma {:induction false} SideSumSigns(o: Orientation, v: seq<Vertex>, h: Elem, e: nat, w: int, n: nat)
    requires |v| == 4 && e < 6 && n <= 12
    requires forall m :: n <= m < 12 ==> SideTerm(o, v, h, m / 3, m % 3) == w * SideSign(e, m)
    ensures SideSum(o, v, h, n) == w * SumSideSigns(e, n)
    decreases 12 - n
  {
    if n < 12 {
      SideSumSigns(o, v, h, e, w, n + 1);
      LinearStep(SideSum(o, v, h, n), SideTerm(o, v, h, n / 3, n % 3), SideSum(o, v, h, n + 1),
                 w, SideSign(e, n), SumSideSigns(e, n + 1), SumSideSigns(e, n));
    }
  }

  /** A side's vertex pair is that of the tetrahedron edge joining its
      corners. */
  lemma SideOnEdge(v: seq<Vertex>, f: nat, j: nat) returns (e: nat)
    requires |v| == 4 && f < 4 && j < 3
    ensures e < 6 && KeyOf(SideElem(v, f, j)) == KeyOf(TetEdge(v, e))
  {
    var p := Side(f, j);
    assert p.0 != p.1 by {
      FacesOmitOneCorner();
    }
    var r := EdgeBetween(p.0, p.1);
    e := r.0;
  }

  /** Off the tetrahedron's edges no side contributes. */
  lemma SideTermsOffEdges(o: Orientation, v: seq<Vertex>, h: Elem)
    requires |v| == 4
    requires forall e :: 0 <= e < 6 ==> KeyOf(h) != KeyOf(TetEdge(v, e))
    ensures forall f, j :: 0 <= f < 4 && 0 <= j < 3 ==> SideTerm(o, v, h, f, j) == 0
  {
    forall f, j | 0 <= f < 4 && 0 <= j < 3
      ensures SideTerm(o, v, h, f, j) == 0
    {
      var e := SideOnEdge(v, f, j);
    }
  }

  /** On a tetrahedron edge the twelve sides cancel: the edge occurs once
      in each direction (`FaceSidesCancel`), and the two directions have
      opposite orientations. */
  lemma SidesCancelOnEdge(o: Orientation, v: seq<Vertex>, h: Elem, e: nat)
    requires OrientationLaws(o) && ReversesEdges(o) && DistinctCorners(v)
    requires e < 6 && KeyOf(h) == KeyOf(TetEdge(v, e))
    ensures SideSum(o, v, h, 0) == 0
  {
    var w := o(h, TetEdge(v, e));
    forall m | 0 <= m < 12
      ensures SideTerm(o, v, h, m / 3, m % 3) == w * SideSign(e, m)
    {
      SideTermSign(o, v, h, e, m);
    }
    SideSumSigns(o, v, h, e, w, 0);
    FaceSidesCancel(e);
  }

  /** Off the tetrahedron's edges every side term is zero. */
  lemma SidesCancelOffEdges(o: Orientation, v: seq<Vertex>, h: Elem)
    requires |v| == 4
    requires forall e :: 0 <= e < 6 ==> KeyOf(h) != KeyOf(TetEdge(v, e))
    ensures SideSum(o, v, h, 0) == 0
  {
    SideTermsOffEdges(o, v, h);
    SideSumByFace(o, v, h);
  }

  /** The twelve sides cancel on every cell. */
  lemma SidesCancel(o: Orientation, v: seq<Vertex>, h: Elem)
    requires OrientationLaws(o) && ReversesEdges(o) && DistinctCorners(v)
    ensures SideSum(o, v, h, 0) == 0
  {
    if e :| 0 <= e < 6 && KeyOf(h) == KeyOf(TetEdge(v, e)) {
      SidesCancelOnEdge(o, v, h, e);
    } else {
      SidesCancelOffEdges(o, v, h);
    }
  }

  /** A sum over four distinct keys. */
  lemma SumOverFour<K>(f: K -> int, k0: K, k1: K, k2: K, k3: K)
    requires k0 != k1 && k0 != k2 && k0 != k3 && k1 != k2 && k1 != k3 && k2 != k3
    ensures SumOver({k0, k1, k2, k3}, f) == f(k0) + f(k1) + f(k2) + f(k3)
  {
    SumOverInsert({}, f, k0);
    assert {} + {k0} == {k0};
    SumOverInsert({k0}, f, k1);
    assert {k0} + {k1} == {k0, k1};
    SumOverInsert({k0, k1}, f, k2);
    assert {k0, k1} + {k2} == {k0, k1, k2};
    SumOverInsert({k0, k1, k2}, f, k3);
    assert {k0, k1, k2} + {k3} == {k0, k1, k2, k3};
  }

  /** The four faces have four different keys. */
  lemma FourFaceKeys(v: seq<Vertex>)
    requires DistinctCorners(v)
    ensures var k0, k1, k2, k3 := KeyOf(FaceOf(v, 0)), KeyOf(FaceOf(v, 1)), KeyOf(FaceOf(v, 2)), KeyOf(FaceOf(v, 3));
      k0 != k1 && k0 != k2 && k0 != k3 && k1 != k2 && k1 != k3 && k2 != k3
  {
    FaceKeysDistinct(v, 0, 1);
    FaceKeysDistinct(v, 0, 2);
    FaceKeysDistinct(v, 0, 3);
    FaceKeysDistinct(v, 1, 2);
    FaceKeysDistinct(v, 1, 3);
    FaceKeysDistinct(v, 2, 3);
  }

  /** A map built by four updates at distinct keys. */
  lemma FourUpdates<K, T>(k0: K, k1: K, k2: K, k3: K, t0: T, t1: T, t2: T, t3: T)
    requires k0 != k1 && k0 != k2 && k0 != k3 && k1 != k2 && k1 != k3 && k2 != k3
    ensures var m := map[k0 := t0][k1 := t1][k2 := t2][k3 := t3];
      m.Keys == {k0, k1, k2, k3} && m[k0] == t0 && m[k1] == t1 && m[k2] == t2 && m[k3] == t3
  {
  }

  /** The keys and entries of the four faces. */
  lemma FaceEntries(v: seq<Vertex>, s: int)
    requires DistinctCorners(v)
    ensures var k0, k1, k2, k3 := KeyOf(FaceOf(v, 0)), KeyOf(FaceOf(v, 1)), KeyOf(FaceOf(v, 2)), KeyOf(FaceOf(v, 3));
      var m := FaceTerms(v, s);
      m.Keys == {k0, k1, k2, k3} && m[k0] == Term(FaceOf(v, 0), s) && m[k1] == Term(FaceOf(v, 1), s)
      && m[k2] == Term(FaceOf(v, 2), s) && m[k3] == Term(FaceOf(v, 3), s)
  {
    FourFaceKeys(v);
    FourUpdates(KeyOf(FaceOf(v, 0)), KeyOf(FaceOf(v, 1)), KeyOf(FaceOf(v, 2)), KeyOf(FaceOf(v, 3)),
      Term(FaceOf(v, 0), s), Term(FaceOf(v, 1), s), Term(FaceOf(v, 2), s), Term(FaceOf(v, 3), s));
  }

  /** The entry of face `f` among the four faces. */
  lemma FaceEntry(v: seq<Vertex>, s: int, f: nat)
    requires DistinctCorners(v) && f < 4
    ensures KeyOf(FaceOf(v, f)) in FaceTerms(v, s)
    ensures FaceTerms(v, s)[KeyOf(FaceOf(v, f))] == Term(FaceOf(v, f), s)
  {
    FaceEntries(v, s);
    if f == 0 {
    } else if f == 1 {
    } else if f == 2 {
    } else {
    }
  }

  /** The summand of the second `getBoundary` at face `f`. */
  lemma FaceSummand(o: Orientation, v: seq<Vertex>, s: int, b: Chain, h: Elem, f: nat)
    requires OrientationLaws(o) && DistinctCorners(v) && f < 4
    requires b.terms == FaceTerms(v, s)
    ensures BoundaryAt(o, SimplexFacets, b.terms, h)(KeyOf(FaceOf(v, f))) == s * FaceSides(o, v, h, f)
  {
    FaceEntry(v, s, f);
    ElemBoundaryCoefficient(o, SimplexFacets, FaceOf(v, f), h);
    FaceContribution(o, v, f, h);
  }

  /** `s a + s b + s c + s d = s (a + b + c + d)`. */
  lemma Distribute4(s: int, a: int, b: int, c: int, d: int)
    ensures s * a + s * b + s * c + s * d == s * (a + b + c + d)
  {
  }

  /** Four summands, each `s` times a part, add up to `s` times the
      parts' total. */
  lemma SumOfFourScaled<K>(f: K -> int, k0: K, k1: K, k2: K, k3: K, s: int, a0: int, a1: int, a2: int, a3: int, total: int)
    requires k0 != k1 && k0 != k2 && k0 != k3 && k1 != k2 && k1 != k3 && k2 != k3
    requires f(k0) == s * a0 && f(k1) == s * a1 && f(k2) == s * a2 && f(k3) == s * a3
    requires total == a0 + a1 + a2 + a3
    ensures SumOver({k0, k1, k2, k3}, f) == s * total
  {
    SumOverFour(f, k0, k1, k2, k3);
    Distribute4(s, a0, a1, a2, a3);
  }

  /** Summed over the four faces, the second `getBoundary` gives every
      cell `s` times the sum of the sides' terms. */
  lemma FacesBoundarySum(o: Orientation, v: seq<Vertex>, s: int, b: Chain, h: Elem)
    requires OrientationLaws(o) && DistinctCorners(v)
    requires b.terms == FaceTerms(v, s)
    ensures SumOver(b.terms.Keys, BoundaryAt(o, SimplexFacets, b.terms, h)) == s * SideSum(o, v, h, 0)
  {
    var k0, k1, k2, k3 := KeyOf(FaceOf(v, 0)), KeyOf(FaceOf(v, 1)), KeyOf(FaceOf(v, 2)), KeyOf(FaceOf(v, 3));
    FourFaceKeys(v);
    FaceEntries(v, s);
    FaceSummand(o, v, s, b, h, 0);
    FaceSummand(o, v, s, b, h, 1);
    FaceSummand(o, v, s, b, h, 2);
    FaceSummand(o, v, s, b, h, 3);
    SideSumByFace(o, v, h);
    SumOfFourScaled(BoundaryAt(o, SimplexFacets, b.terms, h), k0, k1, k2, k3, s,
      FaceSides(o, v, h, 0), FaceSides(o, v, h, 1), FaceSides(o, v, h, 2), FaceSides(o, v, h, 3), SideSum(o, v, h, 0));
  }

  /** The boundary of the four faces with coefficient `s` gives every cell
      `s` times the sum of the sides' terms. */
  lemma FacesBoundaryCoefficient(o: Orientation, v: seq<Vertex>, s: int, b: Chain, h: Elem)
    requires OrientationLaws(o) && DistinctCorners(v)
    requires Valid(b) && b.terms == FaceTerms(v, s)
    ensures Coefficient(o, Boundary(o, SimplexFacets, b), h) == s * SideSum(o, v, h, 0)
  {
    BoundaryCoefficient(o, SimplexFacets, b, h);
    FacesBoundarySum(o, v, s, b, h);
  }

  /** `getBoundary` of the zero chain is the zero chain. */
  lemma BoundaryOfZero(o: Orientation, facets: Facets)
    ensures Boundary(o, facets, Zero()) == Zero()
  {
  }

  /** Every cell of the second boundary has coefficient zero. */
  lemma SecondBoundaryCoefficient(o: Orientation, v: seq<Vertex>, s: int, b: Chain, h: Elem)
    requires OrientationLaws(o) && ReversesEdges(o) && DistinctCorners(v)
    requires Valid(b) && b.terms == FaceTerms(v, s)
    ensures Coefficient(o, Boundary(o, SimplexFacets, b), h) == 0
  {
    FacesBoundaryCoefficient(o, v, s, b, h);
    SidesCancel(o, v, h);
  }

  /** The boundary of the four faces, each with coefficient `s`, is empty. */
  lemma SecondBoundaryVanishes(o: Orientation, v: seq<Vertex>, s: int, b: Chain)
    requires OrientationLaws(o) && ReversesEdges(o) && DistinctCorners(v)
    requires Valid(b) && b.terms == FaceTerms(v, s)
    ensures IsZero(Boundary(o, SimplexFacets, b))
  {
    var bb := Boundary(o, SimplexFacets, b);
    forall h
      ensures Coefficient(o, bb, h) == 0
    {
      SecondBoundaryCoefficient(o, v, s, b, h);
    }
    ZeroCoefficientsMeanNoTerms(o, bb);
  }

  /** The boundary of the boundary of a tetrahedron vanishes: `getBoundary`
      applied twice to the chain holding one tetrahedron with distinct
      corners, with any coefficient, gives the zero chain. */
  lemma BoundaryOfBoundary(o: Orientation, t: Elem, s: int)
    requires OrientationLaws(o) && ReversesEdges(o)
    requires t.dim == 3 && DistinctCorners(t.verts)
    ensures IsZero(Boundary(o, SimplexFacets, Boundary(o, SimplexFacets, AddElem(o, Zero(), t, s))))
  {
    var c := AddElem(o, Zero(), t, s);
    if s == 0 {
      assert c == Zero();
      BoundaryOfZero(o, SimplexFacets);
    } else {
      TetBoundaryIsFaces(o, t, s);
      SecondBoundaryVanishes(o, t.verts, s, Boundary(o, SimplexFacets, c));
    }
  }
}
