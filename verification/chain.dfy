/** The chain algebra of Geo/Chain.h: a `Chain<C>` is a sparse formal sum of
    elementary chains (oriented mesh cells) with nonzero coefficients, all of
    one dimension. Coefficients are integers, the ring the homology code
    instantiates `Chain<C>` with.

    An `ElemChain` is identified by its sorted vertex tuple, so two vertex
    lists with the same vertices name the same generator whatever their order;
    the order only carries orientation. The bodies of `compareOrientation`,
    `getBoundaryElemChain` and `inEntity` are not part of this model: they are
    parameters of the operations that call them. */
module Chains {
  import opened Sums
  import opened Wrappers

  type Vertex = int

  /** The vertex a `std::vector::resize` pads with: a null `MVertex*`. */
  const NullVertex: Vertex := -1

  /** An elementary chain: a cell's dimension and its vertices in the order
      they were supplied (the order carries the orientation). */
  datatype Elem = Elem(dim: nat, verts: seq<Vertex>)

  /** The generator's identity, the sorted vertex tuple, as a multiset. */
  type Key = multiset<Vertex>

  function KeyOf(g: Elem): Key {
    multiset(g.verts)
  }

  /** `g1.compareOrientation(g2)`: +1 or -1 for two lists of the same
      vertices. Its body is not part of this model. */
  type Orientation = (Elem, Elem) -> int

  /** The laws every orientation comparison obeys: a sign, +1 against itself,
      and composing along a chain of reorderings (which makes it symmetric). */
  ghost predicate OrientationLaws(o: Orientation) {
    && (forall a, b :: KeyOf(a) == KeyOf(b) ==> o(a, b) == 1 || o(a, b) == -1)
    && (forall a :: o(a, a) == 1)
    && (forall a, b, c {:trigger Through(o, a, b, c)} :: KeyOf(a) == KeyOf(b) == KeyOf(c) ==> Through(o, a, b, c) == o(a, c))
  }

  /** Comparing `a` with `c` by way of `b`. */
  function Through(o: Orientation, a: Elem, b: Elem, c: Elem): int {
    o(a, b) * o(b, c)
  }

  /** One entry of `_elemChains`: the stored (reference) generator and its
      coefficient. */
  datatype Term = Term(gen: Elem, coeff: int)

  /** `Chain<C>`: `_dim` (-1 while unset), `_elemChains` keyed by generator
      identity, and `_name`. */
  datatype Chain = Chain(dim: int, terms: map<Key, Term>, name: string)

  /** `Chain()`: the zero chain with unset dimension. */
  function Zero(): Chain {
    Chain(-1, map[], "")
  }

  /** `isZero()` */
  predicate IsZero(c: Chain) {
    c.terms == map[]
  }

  /** Every entry is filed under its generator's identity, has a nonzero
      coefficient and the chain's dimension. */
  ghost predicate WellFiled(ts: map<Key, Term>, d: int) {
    forall k :: k in ts ==> KeyOf(ts[k].gen) == k && ts[k].coeff != 0 && ts[k].gen.dim == d
  }

  /** The invariant that every operation of `Chain<C>` maintains. */
  ghost predicate Valid(c: Chain) {
    && (c.dim == -1 ==> c.terms == map[])
    && WellFiled(c.terms, c.dim)
  }

  /** `addElemChain(g, coeff)`: a zero coefficient or a dimension other than an
      already fixed one leaves the chain alone; otherwise the dimension is
      fixed, an absent generator is inserted verbatim (its vertex order becomes
      the reference orientation), and a present one has its coefficient moved
      by `coeff * g.compareOrientation(stored)` and is erased at zero. */
  function AddElem(o: Orientation, c: Chain, g: Elem, coeff: int): (r: Chain)
    ensures Valid(c) ==> Valid(r)
    ensures coeff == 0 || (c.dim != -1 && c.dim != g.dim) ==> r == c
    ensures coeff != 0 && (c.dim == -1 || c.dim == g.dim) ==> r.dim == g.dim
    ensures r.name == c.name
    ensures forall k :: k != KeyOf(g) ==> (k in r.terms <==> k in c.terms)
    ensures forall k :: k != KeyOf(g) && k in r.terms ==> r.terms[k] == c.terms[k]
    ensures KeyOf(g) in c.terms && KeyOf(g) in r.terms ==> r.terms[KeyOf(g)].gen == c.terms[KeyOf(g)].gen
    ensures KeyOf(g) !in c.terms && KeyOf(g) in r.terms ==> r.terms[KeyOf(g)] == Term(g, coeff)
    ensures coeff != 0 && (c.dim == -1 || c.dim == g.dim) && KeyOf(g) !in c.terms ==> KeyOf(g) in r.terms
    ensures forall k :: k in r.terms && k !in c.terms ==> r.terms[k].coeff != 0
  {
    if coeff == 0 then c
    else if c.dim != -1 && c.dim != g.dim then c
    else
      var k := KeyOf(g);
      if k !in c.terms then
        Chain(g.dim, c.terms[k := Term(g, coeff)], c.name)
      else
        var stored := c.terms[k];
        var updated := stored.coeff + coeff * o(g, stored.gen);
        if updated == 0 then Chain(g.dim, c.terms - {k}, c.name)
        else Chain(g.dim, c.terms[k := Term(stored.gen, updated)], c.name)
  }

  /** `getCoefficient(g)`: zero for an absent generator, otherwise the stored
      coefficient seen in `g`'s orientation. */
  function Coefficient(o: Orientation, c: Chain, g: Elem): (r: int)
    ensures KeyOf(g) !in c.terms ==> r == 0
    ensures OrientationLaws(o) && Valid(c) ==> (r != 0 <==> KeyOf(g) in c.terms)
  {
    var k := KeyOf(g);
    if k in c.terms then
      var t := c.terms[k];
      assert OrientationLaws(o) && Valid(c) ==> o(g, t.gen) == 1 || o(g, t.gen) == -1;
      t.coeff * o(g, t.gen)
    else 0
  }

  /** The kinds of mesh element whose faces `getCoefficient` distinguishes. */
  datatype CellType = Tet | Prism | Pyramid | OtherCell

  /** An `MElement` as `getCoefficient(e, subElement)` sees it: its dimension
      and type, the vertex list `ElemChain(e)` is built from, the vertices
      `getVertex(i)` returns for `i < getNumVertices()`, and what
      `getEdgeVertices(i)` and `getFaceVertices(i)` return for each edge and
      face. */
  datatype MeshElement = MeshElement(
    dim: nat,
    cellType: CellType,
    verts: seq<Vertex>,
    nodes: seq<Vertex>,
    edgeVerts: seq<seq<Vertex>>,
    faceVerts: seq<seq<Vertex>>)

  /** `v.resize(n)`: truncate, or pad with null vertices. */
  function Resize(v: seq<Vertex>, n: nat): (r: seq<Vertex>)
    ensures |r| == n
    ensures forall i :: 0 <= i < n ==> r[i] == if i < |v| then v[i] else NullVertex
  {
    if n <= |v| then v[..n] else v + seq(n - |v|, _ => NullVertex)
  }

  /** The number of corners `getCoefficient` keeps of face `i`: three for
      every face of a tetrahedron, the first four faces of a prism and the
      first two of a pyramid, four otherwise. */
  function FaceCorners(t: CellType, i: int): (r: nat)
    ensures r == 3 || r == 4
  {
    if t == Tet || (t == Prism && i < 4) || (t == Pyramid && i < 2) then 3 else 4
  }

  /** The vertex list of the sub-entity `i` of `e` that `getCoefficient`
      builds for a chain of dimension `d` (other than `e`'s): `None` when `i`
      is out of range. A chain of dimension 3 or more gets no vertices. */
  function SubEntity(e: MeshElement, d: nat, i: nat): (r: Option<seq<Vertex>>)
    ensures d == 0 ==> (r.Some? <==> i < |e.nodes|)
    ensures d == 1 ==> (r.Some? <==> i < |e.edgeVerts|)
    ensures d == 2 ==> (r.Some? <==> i < |e.faceVerts|)
    ensures r.Some? && d <= 2 ==> |r.value| == [1, 2, FaceCorners(e.cellType, i)][d]
    ensures r.Some? && d == 0 ==> r.value == [e.nodes[i]]
    ensures r.Some? && d == 1 ==> r.value == Resize(e.edgeVerts[i], 2)
    ensures r.Some? && d == 2 ==> r.value == Resize(e.faceVerts[i], FaceCorners(e.cellType, i))
    ensures d > 2 ==> r == Some([])
  {
    if d == 0 then
      if i >= |e.nodes| then None else Some([e.nodes[i]])
    else if d == 1 then
      if i >= |e.edgeVerts| then None else Some(Resize(e.edgeVerts[i], 2))
    else if d == 2 then
      if i >= |e.faceVerts| then None else Some(Resize(e.faceVerts[i], FaceCorners(e.cellType, i)))
    else Some([])
  }

  /** `getCoefficient(e, subElement)`: the element itself when the dimensions
      agree; otherwise zero without a sub-entity index (-1) or for one out of
      range, and else the coefficient of the sub-entity's leading vertices as
      a generator of the chain's dimension. */
  function CoefficientOfElement(o: Orientation, c: Chain, e: MeshElement, sub: int): (r: int)
    requires sub >= -1
    ensures c.dim == e.dim ==> r == Coefficient(o, c, Elem(e.dim, e.verts))
    ensures c.dim != e.dim && sub == -1 ==> r == 0
    ensures c.dim != e.dim && c.dim >= 0 && sub >= 0 && SubEntity(e, c.dim, sub).None? ==> r == 0
    ensures c.dim != e.dim && c.dim >= 0 && sub >= 0 && SubEntity(e, c.dim, sub).Some?
      ==> r == Coefficient(o, c, Elem(c.dim, SubEntity(e, c.dim, sub).value))
    ensures Valid(c) && c.terms == map[] ==> r == 0
  {
    if c.dim == e.dim then Coefficient(o, c, Elem(e.dim, e.verts))
    else if sub == -1 then 0
    else if c.dim < 0 then 0  // a chain of unset dimension holds no entries
    else
      match SubEntity(e, c.dim, sub)
      case None => 0
      case Some(v) => Coefficient(o, c, Elem(c.dim, v))
  }

  /** Adds the entries of `ts` one by one with `addElemChain`, in an unspecified
      order: the loop of `operator+=` over another chain's `std::map`. */
  ghost function AddTerms(o: Orientation, c: Chain, ts: map<Key, Term>): (r: Chain)
    ensures Valid(c) ==> Valid(r)
    ensures r.name == c.name
    decreases |ts|
  {
    if ts == map[] then c
    else
      var k :| k in ts;
      assert |ts - {k}| < |ts| by {
        assert (ts - {k}).Keys == ts.Keys - {k};
      }
      AddTerms(o, AddElem(o, c, ts[k].gen, ts[k].coeff), ts - {k})
  }

  /** `a += b`, and `a + b` (copy, then `+=`). */
  ghost function Plus(o: Orientation, a: Chain, b: Chain): (r: Chain)
    ensures Valid(a) ==> Valid(r)
    ensures r.name == a.name
  {
    AddTerms(o, a, b.terms)
  }

  /** `c *= s`, `s * c` and `c * s` (the last is defined as the second): a zero
      scalar empties the terms but keeps the dimension, any other scalar
      multiplies every coefficient and keeps the generators. */
  function Scale(c: Chain, s: int): (r: Chain)
    ensures Valid(c) ==> Valid(r)
    ensures r.dim == c.dim && r.name == c.name
    ensures s == 0 ==> r.terms == map[]
    ensures s != 0 ==> r.terms.Keys == c.terms.Keys
    ensures forall k :: k in r.terms ==> r.terms[k] == Term(c.terms[k].gen, s * c.terms[k].coeff)
  {
    if s == 0 then Chain(c.dim, map[], c.name)
    else Chain(c.dim, map k | k in c.terms :: Term(c.terms[k].gen, c.terms[k].coeff * s), c.name)
  }

  /** The state of an operand after an operator that mutates it, with the
      value the operator returns. */
  datatype InPlace = InPlace(self: Chain, result: Chain)

  /** Unary `operator-`: `*this *= -1`, so the operand itself is negated and
      the returned reference is to it. */
  function Negate(c: Chain): (r: InPlace)
    ensures r.self == r.result
    ensures Valid(c) ==> Valid(r.self)
    ensures r.self.terms.Keys == c.terms.Keys
    ensures forall k :: k in c.terms ==> r.self.terms[k].coeff == -c.terms[k].coeff
    ensures Valid(c) && c.terms != map[] ==> r.self != c
  {
    var n := Scale(c, -1);
    assert Valid(c) && c.terms != map[] ==> n != c by {
      if Valid(c) && c.terms != map[] {
        var k :| k in c.terms;
        assert n.terms[k].coeff == -c.terms[k].coeff;
      }
    }
    InPlace(n, n)
  }

  /** `a -= b` and `a - b`: `b` is copied, the copy negated, and added. */
  ghost function Minus(o: Orientation, a: Chain, b: Chain): (r: Chain)
    ensures Valid(a) ==> Valid(r)
  {
    Plus(o, a, Negate(b).result)
  }

  /** `S invs = 1./s` for the integer coefficient type: the double `1/s`
      converted back truncates toward zero, so only a unit survives. */
  function ScalarInverse(s: int): (r: int)
    requires s != 0
    ensures r * s == 1 || (r == 0 && (s < -1 || 1 < s))
  {
    if s == 1 then 1 else if s == -1 then -1 else 0
  }

  /** `c / s` and `c /= s`: scale by the converted inverse. */
  function Divide(c: Chain, s: int): (r: Chain)
    requires s != 0
    ensures Valid(c) ==> Valid(r)
    ensures (s < -1 || 1 < s) ==> r.terms == map[]
    ensures s == 1 ==> r == c
  {
    Scale(c, ScalarInverse(s))
  }

  /** One summand of `incidence`: an entry of `c1` times `c2`'s coefficient of
      the entry's generator. */
  function Pairing(o: Orientation, c1: Chain, c2: Chain, k: Key): int {
    if k in c1.terms then c1.terms[k].coeff * Coefficient(o, c2, c1.terms[k].gen) else 0
  }

  /** The summands of `incidence`, as a function of the key. */
  function Pairings(o: Orientation, c1: Chain, c2: Chain): Key -> int {
    k => Pairing(o, c1, c2, k)
  }

  /** `incidence(c1, c2)`: zero across dimensions, otherwise the sum over the
      entries of `c1`. */
  ghost function Incidence(o: Orientation, c1: Chain, c2: Chain): (r: int)
    ensures c1.dim != c2.dim ==> r == 0
  {
    if c1.dim != c2.dim then 0
    else SumOver(c1.terms.Keys, Pairings(o, c1, c2))
  }

  /** `getBoundaryElemChain(i)` for every `i`, in order. Its body is not part
      of this model. */
  type Facets = Elem -> seq<Elem>

  /** The sign `boundary<C>` gives facet `i`: -1 for the tail of an edge. */
  function FacetSign(g: Elem, i: int): (r: int)
    ensures r == 1 || r == -1
    ensures r == -1 <==> g.dim == 1 && i == 0
  {
    if g.dim == 1 && i == 0 then -1 else 1
  }

  /** The loop of `boundary<C>` from facet `i` on. */
  function AddFacets(o: Orientation, acc: Chain, g: Elem, fs: seq<Elem>, i: nat): (r: Chain)
    requires i <= |fs|
    ensures Valid(acc) ==> Valid(r)
    ensures r.name == acc.name
    decreases |fs| - i
  {
    if i == |fs| then acc
    else AddFacets(o, AddElem(o, acc, fs[i], FacetSign(g, i)), g, fs, i + 1)
  }

  /** `boundary<C>(g)`: the elementary boundary, a fresh chain. */
  function ElemBoundary(o: Orientation, facets: Facets, g: Elem): (r: Chain)
    ensures Valid(r)
    ensures r.name == ""
  {
    AddFacets(o, Zero(), g, facets(g), 0)
  }

  /** The loop of `getBoundary` over the entries `ts`, in an unspecified order:
      each generator's boundary, scaled by its coefficient, is added. */
  ghost function AddBoundaries(o: Orientation, facets: Facets, acc: Chain, ts: map<Key, Term>): (r: Chain)
    ensures Valid(acc) ==> Valid(r)
    ensures r.name == acc.name
    decreases |ts|
  {
    if ts == map[] then acc
    else
      var k :| k in ts;
      assert |ts - {k}| < |ts| by {
        assert (ts - {k}).Keys == ts.Keys - {k};
      }
      AddBoundaries(o, facets, Plus(o, acc, Scale(ElemBoundary(o, facets, ts[k].gen), ts[k].coeff)), ts - {k})
  }

  /** `getBoundary()` */
  ghost function Boundary(o: Orientation, facets: Facets, c: Chain): (r: Chain)
    ensures Valid(r)
    ensures r.name == ""
  {
    AddBoundaries(o, facets, Zero(), c.terms)
  }

  /** `inEntity(e)`: whether a generator lies in a geometric entity. Its body
      (and the vertex cache behind it) is not part of this model. */
  type Membership<!E> = (Elem, E) -> bool

  /** The inner loop of `getTrace`: whether some listed entity contains `g`. */
  function InDomain<E>(inEntity: Membership<E>, g: Elem, entities: seq<E>): (r: bool)
    ensures r <==> exists i :: 0 <= i < |entities| && inEntity(g, entities[i])
  {
    if entities == [] then false
    else if inEntity(g, entities[0]) then true
    else
      assert forall i :: 1 <= i < |entities| ==> entities[i] == entities[1..][i - 1];
      InDomain(inEntity, g, entities[1..])
  }

  /** The outer loop of `getTrace(entities)` over the entries `ts`, in an
      unspecified order. */
  ghost function TraceTerms<E>(o: Orientation, inEntity: Membership<E>, acc: Chain, ts: map<Key, Term>, entities: seq<E>): (r: Chain)
    ensures Valid(acc) ==> Valid(r)
    ensures r.name == acc.name
    decreases |ts|
  {
    if ts == map[] then acc
    else
      var k :| k in ts;
      assert |ts - {k}| < |ts| by {
        assert (ts - {k}).Keys == ts.Keys - {k};
      }
      var acc' := if InDomain(inEntity, ts[k].gen, entities) then AddElem(o, acc, ts[k].gen, ts[k].coeff) else acc;
      TraceTerms(o, inEntity, acc', ts - {k}, entities)
  }

  /** `getTrace(entities)` */
  ghost function Trace<E>(o: Orientation, inEntity: Membership<E>, c: Chain, entities: seq<E>): (r: Chain)
    ensures Valid(r)
  {
    TraceTerms(o, inEntity, Zero(), c.terms, entities)
  }
}
