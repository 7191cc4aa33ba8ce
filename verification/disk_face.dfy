/** The combinatorial part of `discreteDiskFace` (Geo/discreteDiskFace.cpp):
    copying the triangles of a face with its own vertices, collecting their
    nodes, finding the boundary edges by parity and chaining them into
    loops. Vertices are of any type `V` with equality; an edge is a pair of
    vertices and `Less_Edge` compares edges by their unordered vertex pair. */
module DiskFaces {
  import opened Wrappers

  /** An `MTriangle`: its vertices 0, 1, 2. */
  datatype Triangle<V> = Triangle(v0: V, v1: V, v2: V)
  {
    /** `getVertex(j)` */
    function Vertex(j: nat): V
      requires j < 3
    {
      [v0, v1, v2][j]
    }
  }

  /** An `MEdge`: first and last vertex. */
  type Edge<V> = (V, V)

  /** What `Less_Edge` compares: the unordered vertex pair. */
  function EdgeKey<V(==)>(e: Edge<V>): set<V> {
    {e.0, e.1}
  }

  /** `getEdge(0..2)` of a triangle: each side from vertex `j` to `j + 1`. */
  function TriangleEdges<V(==)>(t: Triangle<V>): seq<Edge<V>> {
    [(t.v0, t.v1), (t.v1, t.v2), (t.v2, t.v0)]
  }

  /** The edges of the triangles in the order the toggle loop meets them. */
  function AllTriangleEdges<V(==)>(tris: seq<Triangle<V>>): (r: seq<Edge<V>>)
    ensures |r| == 3 * |tris|
  {
    if tris == [] then [] else AllTriangleEdges(tris[..|tris| - 1]) + TriangleEdges(tris[|tris| - 1])
  }

  // ---------------------------------------------------------------------
  // the constructor's copy of the mesh, and allNodes

  /** A vertex of `discrete_triangles`: an original vertex kept as it is, or
      the `MFaceVertex` at position `index` of `discrete_vertices`. */
  datatype FaceVertex<V> = Kept(v: V) | Copy(index: nat)

  /** `w` is what the constructor puts in place of `v`: a copy listed in
      `copied` when `v` lies on the face, `v` itself otherwise. */
  ghost predicate CopiedAs<V>(onFace: V -> bool, copied: seq<V>, v: V, w: FaceVertex<V>) {
    if onFace(v) then w.Copy? && w.index < |copied| && copied[w.index] == v else w == Kept(v)
  }

  /** The vertices of `mesh` that lie on the face. */
  ghost function OnFaceVertices<V>(mesh: seq<Triangle<V>>, onFace: V -> bool): set<V> {
    set i, j | 0 <= i < |mesh| && 0 <= j < 3 && onFace(mesh[i].Vertex(j)) :: mesh[i].Vertex(j)
  }

  /** `v2v` and `discrete_vertices` (as the originals copied) are inverse
      maps, and only vertices on the face are copied. */
  ghost predicate CopyState<V>(onFace: V -> bool, v2v: map<V, nat>, copied: seq<V>) {
    && v2v.Keys == Elems(copied)
    && (forall k :: 0 <= k < |copied| ==> copied[k] in v2v && v2v[copied[k]] == k)
    && (forall v :: v in v2v ==> v2v[v] < |copied| && copied[v2v[v]] == v)
    && (forall k :: 0 <= k < |copied| ==> onFace(copied[k]))
  }

  /** The inner step of the constructor for one vertex `v`: the vertex it
      becomes, and `v2v` and the copies after it. */
  method CopyVertex<V(==)>(onFace: V -> bool, v2v: map<V, nat>, copied: seq<V>, v: V)
    returns (w: FaceVertex<V>, v2v': map<V, nat>, copied': seq<V>)
    requires CopyState(onFace, v2v, copied)
    ensures CopyState(onFace, v2v', copied')
    ensures CopiedAs(onFace, copied', v, w)
    ensures copied <= copied'
    ensures Elems(copied') == Elems(copied) + (if onFace(v) then {v} else {})
  {
    if !onFace(v) {
      return Kept(v), v2v, copied;
    }
    if v in v2v {
      return Copy(v2v[v]), v2v, copied;
    }
    v2v' := v2v[v := |copied|];
    copied' := copied + [v];
    w := Copy(|copied|);
  }

  /** The inner loop of the constructor for one triangle. */
  method CopyTriangle<V(==)>(onFace: V -> bool, v2v: map<V, nat>, copied: seq<V>, t: Triangle<V>)
    returns (w: Triangle<FaceVertex<V>>, v2v': map<V, nat>, copied': seq<V>)
    requires CopyState(onFace, v2v, copied)
    ensures CopyState(onFace, v2v', copied')
    ensures CopiedAs(onFace, copied', t.v0, w.v0) && CopiedAs(onFace, copied', t.v1, w.v1) && CopiedAs(onFace, copied', t.v2, w.v2)
    ensures copied <= copied'
    ensures Elems(copied') == Elems(copied) + (if onFace(t.v0) then {t.v0} else {}) + (if onFace(t.v1) then {t.v1} else {}) + (if onFace(t.v2) then {t.v2} else {})
  {
    var w0, w1, w2, c0, c1;
    w0, v2v', c0 := CopyVertex(onFace, v2v, copied, t.v0);
    w1, v2v', c1 := CopyVertex(onFace, v2v', c0, t.v1);
    w2, v2v', copied' := CopyVertex(onFace, v2v', c1, t.v2);
    CopiedAsGrows(onFace, c0, copied', t.v0, w0);
    CopiedAsGrows(onFace, c1, copied', t.v1, w1);
    w := Triangle(w0, w1, w2);
  }

  /** The three corners of a copied triangle, by index. */
  lemma TriangleImages<V>(onFace: V -> bool, copied: seq<V>, t: Triangle<V>, w: Triangle<FaceVertex<V>>)
    requires CopiedAs(onFace, copied, t.v0, w.v0) && CopiedAs(onFace, copied, t.v1, w.v1) && CopiedAs(onFace, copied, t.v2, w.v2)
    ensures forall j :: 0 <= j < 3 ==> CopiedAs(onFace, copied, t.Vertex(j), w.Vertex(j))
  {
    assert t.Vertex(0) == t.v0 && t.Vertex(1) == t.v1 && t.Vertex(2) == t.v2;
    assert w.Vertex(0) == w.v0 && w.Vertex(1) == w.v1 && w.Vertex(2) == w.v2;
  }

  /** An image stays right when more copies are made. */
  lemma CopiedAsGrows<V>(onFace: V -> bool, copied: seq<V>, copied': seq<V>, v: V, w: FaceVertex<V>)
    requires copied <= copied' && CopiedAs(onFace, copied, v, w)
    ensures CopiedAs(onFace, copied', v, w)
  {
  }

  /** Entries before `i` are the images of `mesh`'s vertices. */
  ghost predicate CopiedUpTo<V>(onFace: V -> bool, copied: seq<V>, mesh: seq<Triangle<V>>, tris: seq<Triangle<FaceVertex<V>>>, i: nat)
    requires i <= |mesh| && i <= |tris|
  {
    forall i', j :: 0 <= i' < i && 0 <= j < 3 ==> CopiedAs(onFace, copied, mesh[i'].Vertex(j), tris[i'].Vertex(j))
  }

  lemma CopiedGrows<V>(onFace: V -> bool, copied: seq<V>, copied': seq<V>, mesh: seq<Triangle<V>>, tris: seq<Triangle<FaceVertex<V>>>, i: nat)
    requires i <= |mesh| && i <= |tris| && copied <= copied'
    requires CopiedUpTo(onFace, copied, mesh, tris, i)
    ensures CopiedUpTo(onFace, copied', mesh, tris, i)
  {
    forall i', j | 0 <= i' < i && 0 <= j < 3
      ensures CopiedAs(onFace, copied', mesh[i'].Vertex(j), tris[i'].Vertex(j))
    {
      CopiedAsGrows(onFace, copied, copied', mesh[i'].Vertex(j), tris[i'].Vertex(j));
    }
  }

  /** The vertices of one triangle on the face, vertex by vertex. */
  lemma TriangleOnFace<V>(t: Triangle<V>, onFace: V -> bool)
    ensures (set j | 0 <= j < 3 && onFace(t.Vertex(j)) :: t.Vertex(j)) ==
      (if onFace(t.v0) then {t.v0} else {}) + (if onFace(t.v1) then {t.v1} else {}) + (if onFace(t.v2) then {t.v2} else {})
  {
    assert t.Vertex(0) == t.v0 && t.Vertex(1) == t.v1 && t.Vertex(2) == t.v2;
  }

  lemma OnFaceVerticesStep<V>(mesh: seq<Triangle<V>>, onFace: V -> bool, i: nat)
    requires i < |mesh|
    ensures OnFaceVertices(mesh[..i + 1], onFace) ==
      OnFaceVertices(mesh[..i], onFace) + set j | 0 <= j < 3 && onFace(mesh[i].Vertex(j)) :: mesh[i].Vertex(j)
  {
    assert forall i' :: 0 <= i' < i ==> mesh[..i + 1][i'] == mesh[..i][i'];
  }

  /** One pass of the triangle loop keeps its invariant. */
  lemma CopyMeshStep<V>(mesh: seq<Triangle<V>>, onFace: V -> bool, tris: seq<Triangle<FaceVertex<V>>>,
                        copied: seq<V>, c: seq<V>, w: Triangle<FaceVertex<V>>, i: nat)
    requires i < |mesh| && |tris| == i && copied <= c
    requires CopiedUpTo(onFace, copied, mesh, tris, i)
    requires Elems(copied) == OnFaceVertices(mesh[..i], onFace)
    requires CopiedAs(onFace, c, mesh[i].v0, w.v0) && CopiedAs(onFace, c, mesh[i].v1, w.v1) && CopiedAs(onFace, c, mesh[i].v2, w.v2)
    requires var t := mesh[i];
      Elems(c) == Elems(copied) + (if onFace(t.v0) then {t.v0} else {}) + (if onFace(t.v1) then {t.v1} else {}) + (if onFace(t.v2) then {t.v2} else {})
    ensures CopiedUpTo(onFace, c, mesh, tris + [w], i + 1)
    ensures Elems(c) == OnFaceVertices(mesh[..i + 1], onFace)
  {
    TriangleImages(onFace, c, mesh[i], w);
    TriangleOnFace(mesh[i], onFace);
    CopiedGrows(onFace, copied, c, mesh, tris, i);
    OnFaceVerticesStep(mesh, onFace, i);
    var tris' := tris + [w];
    assert forall i' :: 0 <= i' < i ==> tris'[i'] == tris[i'];
  }

  /** The triangle loop of the constructor: `discrete_triangles` (`tris`) and
      the originals of `discrete_vertices` (`copied`, in creation order). Each
      vertex on the face is replaced by its one copy, the others are kept. */
  method CopyMesh<V(==)>(mesh: seq<Triangle<V>>, onFace: V -> bool)
    returns (tris: seq<Triangle<FaceVertex<V>>>, copied: seq<V>)
    ensures |tris| == |mesh|
    ensures forall i, j :: 0 <= i < |mesh| && 0 <= j < 3 ==>
      CopiedAs(onFace, copied, mesh[i].Vertex(j), tris[i].Vertex(j))
    ensures NoDuplicates(copied)
    ensures Elems(copied) == OnFaceVertices(mesh, onFace)
  {
    var v2v: map<V, nat> := map[];
    tris, copied := [], [];
    for i := 0 to |mesh|
      invariant |tris| == i
      invariant CopyState(onFace, v2v, copied)
      invariant CopiedUpTo(onFace, copied, mesh, tris, i)
      invariant Elems(copied) == OnFaceVertices(mesh[..i], onFace)
    {
      var w, c;
      w, v2v, c := CopyTriangle(onFace, v2v, copied, mesh[i]);
      CopyMeshStep(mesh, onFace, tris, copied, c, w, i);
      tris, copied := tris + [w], c;
    }
    assert NoDuplicates(copied) by {
      assert forall a, b :: 0 <= a < b < |copied| ==> v2v[copied[a]] != v2v[copied[b]];
    }
    assert mesh[..|mesh|] == mesh;
  }

  /** Two corners of the copied mesh are the same vertex exactly when the
      original corners are: one copy per vertex on the face, none shared. */
  lemma CopyKeepsIdentity<V>(mesh: seq<Triangle<V>>, onFace: V -> bool, tris: seq<Triangle<FaceVertex<V>>>, copied: seq<V>,
                             i: nat, j: nat, i': nat, j': nat)
    requires |tris| == |mesh| && NoDuplicates(copied)
    requires forall i, j :: 0 <= i < |mesh| && 0 <= j < 3 ==> CopiedAs(onFace, copied, mesh[i].Vertex(j), tris[i].Vertex(j))
    requires i < |mesh| && i' < |mesh| && j < 3 && j' < 3
    ensures tris[i].Vertex(j) == tris[i'].Vertex(j') <==> mesh[i].Vertex(j) == mesh[i'].Vertex(j')
  {
    assert CopiedAs(onFace, copied, mesh[i].Vertex(j), tris[i].Vertex(j));
    assert CopiedAs(onFace, copied, mesh[i'].Vertex(j'), tris[i'].Vertex(j'));
  }

  /** The vertices of the triangles. */
  ghost function TriangleVertices<V>(tris: seq<Triangle<V>>): set<V> {
    set i, j | 0 <= i < |tris| && 0 <= j < 3 :: tris[i].Vertex(j)
  }

  /** `buildAllNodes`: every vertex of the triangles, each once. */
  method AllNodes<V(==)>(tris: seq<Triangle<V>>) returns (nodes: set<V>)
    ensures nodes == TriangleVertices(tris)
  {
    nodes := {};
    for i := 0 to |tris|
      invariant nodes == TriangleVertices(tris[..i])
    {
      for j := 0 to 3
        invariant nodes == TriangleVertices(tris[..i]) + set j' | 0 <= j' < j :: tris[i].Vertex(j')
      {
        var v := tris[i].Vertex(j);
        if v !in nodes {
          nodes := nodes + {v};
        }
      }
      assert forall i' :: 0 <= i' < i ==> tris[..i + 1][i'] == tris[..i][i'];
    }
    assert tris[..|tris|] == tris;
  }

  /** The nodes of the copied mesh: the kept vertices off the face and every
      copy in `discrete_vertices`. */
  lemma CopiedNodes<V>(mesh: seq<Triangle<V>>, onFace: V -> bool, tris: seq<Triangle<FaceVertex<V>>>, copied: seq<V>)
    requires |tris| == |mesh| && NoDuplicates(copied) && Elems(copied) == OnFaceVertices(mesh, onFace)
    requires forall i, j :: 0 <= i < |mesh| && 0 <= j < 3 ==> CopiedAs(onFace, copied, mesh[i].Vertex(j), tris[i].Vertex(j))
    ensures TriangleVertices(tris) ==
      (set v | v in TriangleVertices(mesh) && !onFace(v) :: Kept(v)) + (set k | 0 <= k < |copied| :: Copy(k))
  {
    var lhs := TriangleVertices(tris);
    var rhs := (set v | v in TriangleVertices(mesh) && !onFace(v) :: Kept(v)) + (set k | 0 <= k < |copied| :: Copy(k));
    forall w | w in lhs
      ensures w in rhs
    {
      var i, j :| 0 <= i < |tris| && 0 <= j < 3 && tris[i].Vertex(j) == w;
      assert CopiedAs(onFace, copied, mesh[i].Vertex(j), tris[i].Vertex(j));
      if !onFace(mesh[i].Vertex(j)) {
        assert mesh[i].Vertex(j) in TriangleVertices(mesh);
      }
    }
    forall w | w in rhs
      ensures w in lhs
    {
      if w.Kept? {
        var i, j :| 0 <= i < |mesh| && 0 <= j < 3 && mesh[i].Vertex(j) == w.v;
        assert CopiedAs(onFace, copied, mesh[i].Vertex(j), tris[i].Vertex(j));
      } else {
        var k := w.index;
        assert copied[k] in Elems(copied);
        var i, j :| 0 <= i < |mesh| && 0 <= j < 3 && onFace(mesh[i].Vertex(j)) && mesh[i].Vertex(j) == copied[k];
        assert CopiedAs(onFace, copied, mesh[i].Vertex(j), tris[i].Vertex(j));
        assert tris[i].Vertex(j) == w;
      }
    }
  }

  // ---------------------------------------------------------------------
  // the toggle set

  /** The set `allEdges`, as the stored edge of each unordered pair. */
  type EdgeSet<V> = map<set<V>, Edge<V>>

  /** One step of the toggle loop: insert `e` if no edge with its vertex pair
      is stored, erase the stored one otherwise. */
  function Flip<V(==)>(m: EdgeSet<V>, e: Edge<V>): EdgeSet<V> {
    var k := EdgeKey(e);
    if k in m then m - {k} else m[k := e]
  }

  /** `allEdges` after toggling the edges `es` one by one, from empty. */
  function Toggle<V(==)>(es: seq<Edge<V>>): EdgeSet<V>
    decreases |es|
  {
    if es == [] then map[] else Flip(Toggle(es[..|es| - 1]), es[|es| - 1])
  }

  /** How many of the edges `es` join the vertex pair `k`. */
  function Count<V(==)>(es: seq<Edge<V>>, k: set<V>): nat
    decreases |es|
  {
    if es == [] then 0 else Count(es[..|es| - 1], k) + (if EdgeKey(es[|es| - 1]) == k then 1 else 0)
  }

  /** A vertex pair ends up in `allEdges` exactly when an odd number of the
      edges join it, and then the edge stored for it is one of those edges. */
  lemma {:induction false} ToggleParity<V>(es: seq<Edge<V>>, k: set<V>)
    ensures k in Toggle(es) <==> Count(es, k) % 2 == 1
    ensures k in Toggle(es) ==> EdgeKey(Toggle(es)[k]) == k && Toggle(es)[k] in es
    decreases |es|
  {
    if es != [] {
      var init, e := es[..|es| - 1], es[|es| - 1];
      ToggleParity(init, k);
      assert es == init + [e];
    }
  }

  /** An edge shared by exactly two triangles is not a boundary edge. */
  lemma SharedEdgeIsInner<V>(tris: seq<Triangle<V>>, k: set<V>)
    requires Count(AllTriangleEdges(tris), k) == 2
    ensures k !in Toggle(AllTriangleEdges(tris))
  {
    ToggleParity(AllTriangleEdges(tris), k);
  }

  /** The toggle loop of `getBoundingEdges` over the triangles' edges. */
  method BoundaryEdges<V(==)>(tris: seq<Triangle<V>>) returns (all: EdgeSet<V>)
    ensures all == Toggle(AllTriangleEdges(tris))
    ensures forall k :: k in all <==> Count(AllTriangleEdges(tris), k) % 2 == 1
    ensures forall k :: k in all ==> EdgeKey(all[k]) == k && all[k] in AllTriangleEdges(tris)
  {
    all := map[];
    var i := 0;
    while i < |tris|
      invariant i <= |tris|
      invariant all == Toggle(AllTriangleEdges(tris[..i]))
    {
      var t := tris[i];
      var before := AllTriangleEdges(tris[..i]);
      assert tris[..i + 1][..i] == tris[..i];
      var es := before + TriangleEdges(t);
      assert AllTriangleEdges(tris[..i + 1]) == es;
      var j := 0;
      while j < 3
        invariant j <= 3
        invariant all == Toggle(es[..|before| + j])
      {
        assert es[..|before| + j + 1][..|before| + j] == es[..|before| + j];
        all := Flip(all, TriangleEdges(t)[j]);
        j := j + 1;
      }
      assert es[..|before| + 3] == es;
      i := i + 1;
    }
    assert tris[..|tris|] == tris;
    forall k
      ensures k in all <==> Count(AllTriangleEdges(tris), k) % 2 == 1
      ensures k in all ==> EdgeKey(all[k]) == k && all[k] in AllTriangleEdges(tris)
    {
      ToggleParity(AllTriangleEdges(tris), k);
    }
  }

  // ---------------------------------------------------------------------
  // firstNode2Edge

  /** No two stored edges start at the same vertex. */
  ghost predicate DistinctFirsts<V>(all: EdgeSet<V>) {
    forall k1, k2 :: k1 in all && k2 in all && all[k1].0 == all[k2].0 ==> k1 == k2
  }

  /** The first vertices of the stored edges with vertex pairs in `ks`. */
  ghost function Firsts<V>(all: EdgeSet<V>, ks: set<set<V>>): set<V> {
    set k | k in ks && k in all :: all[k].0
  }

  lemma FirstsAdd<V>(all: EdgeSet<V>, ks: set<set<V>>, k: set<V>)
    requires k in all
    ensures Firsts(all, ks + {k}) == Firsts(all, ks) + {all[k].0}
  {
  }

  /** What the loop filling `firstNode2Edge` keeps true: `m` maps the first
      vertex of each edge seen to its last, and the seen edges have distinct
      first vertices. */
  ghost predicate FirstsState<V>(all: EdgeSet<V>, seen: set<set<V>>, m: map<V, V>) {
    && seen <= all.Keys
    && |m| == |seen| && m.Keys == Firsts(all, seen)
    && (forall k :: k in seen ==> m[all[k].0] == all[k].1)
    && (forall k1, k2 :: k1 in seen && k2 in seen && all[k1].0 == all[k2].0 ==> k1 == k2)
  }

  /** Adding an edge whose first vertex is new keeps the state. */
  lemma FirstsStep<V>(all: EdgeSet<V>, seen: set<set<V>>, m: map<V, V>, k: set<V>)
    requires FirstsState(all, seen, m) && k in all && k !in seen && all[k].0 !in m
    ensures FirstsState(all, seen + {k}, m[all[k].0 := all[k].1])
  {
    FirstsStepCount(all, seen, m, k);
    FirstsStepKeys(all, seen, m, k);
    FirstsStepValues(all, seen, m, k);
    FirstsStepDistinct(all, seen, m, k);
  }

  lemma FirstsStepCount<V>(all: EdgeSet<V>, seen: set<set<V>>, m: map<V, V>, k: set<V>)
    requires FirstsState(all, seen, m) && k in all && k !in seen && all[k].0 !in m
    ensures |m[all[k].0 := all[k].1]| == |seen + {k}|
  {
    assert m[all[k].0 := all[k].1].Keys == m.Keys + {all[k].0};
  }

  lemma FirstsStepKeys<V>(all: EdgeSet<V>, seen: set<set<V>>, m: map<V, V>, k: set<V>)
    requires FirstsState(all, seen, m) && k in all && k !in seen && all[k].0 !in m
    ensures m[all[k].0 := all[k].1].Keys == Firsts(all, seen + {k})
  {
    FirstsAdd(all, seen, k);
  }

  lemma FirstsStepValues<V>(all: EdgeSet<V>, seen: set<set<V>>, m: map<V, V>, k: set<V>)
    requires FirstsState(all, seen, m) && k in all && k !in seen && all[k].0 !in m
    ensures forall k1 :: k1 in seen + {k} ==> m[all[k].0 := all[k].1][all[k1].0] == all[k1].1
  {
  }

  lemma FirstsStepDistinct<V>(all: EdgeSet<V>, seen: set<set<V>>, m: map<V, V>, k: set<V>)
    requires FirstsState(all, seen, m) && k in all && k !in seen && all[k].0 !in m
    ensures forall k1, k2 :: k1 in seen + {k} && k2 in seen + {k} && all[k1].0 == all[k2].0 ==> k1 == k2
  {
    forall k1 | k1 in seen
      ensures all[k1].0 != all[k].0
    {
      assert all[k1].0 in Firsts(all, seen);
    }
  }

  /** An edge whose first vertex is already in `m` shares it with a seen
      edge. */
  lemma FirstsClash<V>(all: EdgeSet<V>, seen: set<set<V>>, m: map<V, V>, k: set<V>)
    requires FirstsState(all, seen, m) && k in all && k !in seen && all[k].0 in m
    ensures !DistinctFirsts(all)
  {
    var k2 :| k2 in seen && k2 in all && all[k2].0 == all[k].0;
    assert k2 != k;
  }

  /** Moving `k` from the remaining set `r` to the seen part of `a`. */
  lemma MoveOne<T>(a: set<T>, r: set<T>, k: T)
    requires k in r && r <= a
    ensures a - r + {k} == a - (r - {k})
  {
  }

  /** Once every edge is seen, `m` is the successor map the contract of
      `FirstNodeMap` describes. */
  lemma FirstsDone<V>(all: EdgeSet<V>, seen: set<set<V>>, m: map<V, V>)
    requires FirstsState(all, seen, m) && seen == all.Keys
    ensures DistinctFirsts(all) && |m| == |all|
    ensures m.Keys == set k | k in all :: all[k].0
    ensures forall k :: k in all ==> m[all[k].0] == all[k].1
  {
  }

  /** The loop over `allEdges` that fills `firstNode2Edge`, mapping each
      boundary edge's first vertex to its last; `None` where the source stops
      with "Incorrect topology", on meeting a first vertex a second time. */
  method FirstNodeMap<V(==)>(all: EdgeSet<V>) returns (r: Option<map<V, V>>)
    ensures r.Some? <==> DistinctFirsts(all)
    ensures r.Some? ==> |r.value| == |all|
    ensures r.Some? ==> r.value.Keys == set k | k in all :: all[k].0
    ensures r.Some? ==> forall k :: k in all ==> r.value[all[k].0] == all[k].1
  {
    var m: map<V, V> := map[];
    var rest := all.Keys;
    while rest != {}
      invariant rest <= all.Keys
      invariant FirstsState(all, all.Keys - rest, m)
      decreases |rest|
    {
      var k :| k in rest;
      var e := all[k];
      if e.0 in m {
        FirstsClash(all, all.Keys - rest, m, k);
        return None;
      }
      FirstsStep(all, all.Keys - rest, m, k);
      MoveOne(all.Keys, rest, k);
      m := m[e.0 := e.1];
      rest := rest - {k};
    }
    var seen := all.Keys - rest;
    FirstsDone(all, seen, m);
    return Some(m);
  }

  // ---------------------------------------------------------------------
  // the loop walk

  /** The sequences of `loops` one after the other. */
  function Concat<V(==)>(loops: seq<seq<V>>): (r: seq<V>)
    decreases |loops|
  {
    if loops == [] then [] else Concat(loops[..|loops| - 1]) + loops[|loops| - 1]
  }

  /** No vertex occurs twice. */
  predicate NoDuplicates<V(==)>(s: seq<V>) {
    forall i, j :: 0 <= i < j < |s| ==> s[i] != s[j]
  }

  /** Each vertex of `loop` but the last is followed by its successor. */
  ghost predicate Chained<V>(succ: map<V, V>, loop: seq<V>) {
    forall i :: 0 <= i < |loop| - 1 ==> loop[i] in succ && succ[loop[i]] == loop[i + 1]
  }

  /** A sequence without duplicates has as many elements as its set. */
  lemma {:induction false} DistinctCount<V>(s: seq<V>)
    requires NoDuplicates(s)
    ensures |Elems(s)| == |s|
    decreases |s|
  {
    if s != [] {
      var init := s[..|s| - 1];
      DistinctCount(init);
      assert Elems(s) == Elems(init) + {s[|s| - 1]};
      assert s[|s| - 1] !in Elems(init);
    }
  }

  /** The vertices of `s`. */
  function Elems<V>(s: seq<V>): set<V> {
    set v | v in s
  }

  lemma ConcatAppend<V>(loops: seq<seq<V>>, loop: seq<V>)
    ensures Concat(loops + [loop]) == Concat(loops) + loop
  {
    assert (loops + [loop])[..|loops|] == loops;
  }

  /** Joining two duplicate-free sequences with no vertex in common. */
  lemma JoinDistinct<V>(a: seq<V>, b: seq<V>)
    requires NoDuplicates(a) && NoDuplicates(b) && Elems(a) !! Elems(b)
    ensures NoDuplicates(a + b) && Elems(a + b) == Elems(a) + Elems(b)
  {
    forall i, j | 0 <= i < j < |a + b|
      ensures (a + b)[i] != (a + b)[j]
    {
      if i < |a| <= j {
        assert a[i] in Elems(a) && b[j - |a|] in Elems(b);
      }
    }
  }

  /** The walk that produced `loop` stopped because the successor of its
      last vertex is not in `left`. */
  ghost predicate StopsOutside<V>(succ: map<V, V>, loop: seq<V>, left: set<V>) {
    |loop| > 0 && loop[|loop| - 1] in succ && succ[loop[|loop| - 1]] !in left
  }

  /** What the walk keeps true between two loops: the loops found so far
      follow successors and, with the entries left, hold every key once; each
      loop stopped at a successor that is neither left nor in a later loop. */
  ghost predicate WalkState<V>(succ: map<V, V>, loops: seq<seq<V>>, m: map<V, V>) {
    && (forall i :: 0 <= i < |loops| ==> |loops[i]| > 0 && Chained(succ, loops[i]))
    && NoDuplicates(Concat(loops))
    && Elems(Concat(loops)) !! m.Keys
    && Elems(Concat(loops)) + m.Keys == succ.Keys
    && (forall v :: v in m ==> v in succ && m[v] == succ[v])
    && (forall i :: 0 <= i < |loops| ==> StopsOutside(succ, loops[i], m.Keys))
    && (forall i, j :: 0 <= i < j < |loops| ==> StopsOutside(succ, loops[i], Elems(loops[j])))
  }

  /** A walk that stopped outside `left` stopped outside any part of it. */
  lemma StopsOutsideSmaller<V>(succ: map<V, V>, loop: seq<V>, left: set<V>, part: set<V>)
    requires StopsOutside(succ, loop, left) && part <= left
    ensures StopsOutside(succ, loop, part)
  {
  }

  /** Adding a loop found by one inner walk keeps the walk's state. */
  lemma WalkStep<V>(succ: map<V, V>, loops: seq<seq<V>>, m: map<V, V>, loop: seq<V>, rest: map<V, V>)
    requires WalkState(succ, loops, m)
    requires |loop| > 0 && Chained(succ, loop) && NoDuplicates(loop)
    requires Elems(loop) !! rest.Keys && Elems(loop) + rest.Keys == m.Keys
    requires forall v :: v in rest ==> rest[v] == m[v]
    requires StopsOutside(succ, loop, rest.Keys)
    ensures WalkState(succ, loops + [loop], rest)
  {
    ConcatAppend(loops, loop);
    JoinDistinct(Concat(loops), loop);
    var next := loops + [loop];
    forall i | 0 <= i < |next|
      ensures |next[i]| > 0 && Chained(succ, next[i])
      ensures StopsOutside(succ, next[i], rest.Keys)
    {
      if i < |loops| {
        assert next[i] == loops[i];
        StopsOutsideSmaller(succ, loops[i], m.Keys, rest.Keys);
      }
    }
    forall i, j | 0 <= i < j < |next|
      ensures StopsOutside(succ, next[i], Elems(next[j]))
    {
      assert next[i] == loops[i];
      if j < |loops| {
        assert next[j] == loops[j];
      } else {
        StopsOutsideSmaller(succ, loops[i], m.Keys, Elems(loop));
      }
    }
  }

  /** `loops` is what the walk over `succ` can produce for some choice of
      starting vertices: nonempty loops following successors, holding every
      key exactly once, each ending where the successor of its last vertex
      is in no later loop. */
  ghost predicate IsWalk<V>(succ: map<V, V>, loops: seq<seq<V>>) {
    && (forall i :: 0 <= i < |loops| ==> |loops[i]| > 0 && Chained(succ, loops[i]))
    && NoDuplicates(Concat(loops))
    && Elems(Concat(loops)) == succ.Keys
    && (forall l, v :: l in loops && v in l ==> v in succ)
    && (forall i, j :: 0 <= i < j < |loops| ==> StopsOutside(succ, loops[i], Elems(loops[j])))
  }

  /** The walk of `getBoundingEdges`: while `firstNode2Edge` is not empty,
      start a loop at one of its entries and follow successors, erasing each
      entry as it is used, until the successor has no entry left. Every
      entry's first vertex lands in exactly one loop, once, and each loop
      ends at a vertex whose successor is in no later loop. */
  method WalkLoops<V(==)>(succ: map<V, V>) returns (loops: seq<seq<V>>)
    ensures IsWalk(succ, loops)
    ensures |Concat(loops)| == |succ|
  {
    var m := succ;
    loops := [];
    while m != map[]
      invariant WalkState(succ, loops, m)
      decreases |m|
    {
      var start :| start in m;
      var loop, rest := WalkOne(succ, m, start);
      WalkStep(succ, loops, m, loop, rest);
      loops := loops + [loop];
      m := rest;
    }
    DistinctCount(Concat(loops));
    WalkedLoopsInMap(succ, loops);
  }

  /** What one inner walk keeps true: the loop so far follows successors
      without repeating a vertex, `cur` is the successor of its last vertex,
      and the loop's vertices and the entries left make up `m`. */
  ghost predicate InnerState<V>(succ: map<V, V>, m: map<V, V>, start: V, loop: seq<V>, cur: V, rest: map<V, V>) {
    && |loop| > 0 && loop[0] == start && Chained(succ, loop) && NoDuplicates(loop)
    && loop[|loop| - 1] in succ && cur == succ[loop[|loop| - 1]]
    && Elems(loop) !! rest.Keys && Elems(loop) + rest.Keys == m.Keys
    && (forall v :: v in rest ==> rest[v] == m[v])
  }

  /** Following the successor `cur` of the loop's last vertex. */
  lemma InnerStep<V>(succ: map<V, V>, m: map<V, V>, start: V, loop: seq<V>, cur: V, rest: map<V, V>)
    requires forall v :: v in m ==> v in succ && m[v] == succ[v]
    requires InnerState(succ, m, start, loop, cur, rest) && cur in rest
    ensures InnerState(succ, m, start, loop + [cur], rest[cur], rest - {cur})
  {
    var loop2 := loop + [cur];
    assert Elems(loop2) == Elems(loop) + {cur};
    assert Chained(succ, loop2) by {
      forall i | 0 <= i < |loop2| - 1
        ensures loop2[i] in succ && succ[loop2[i]] == loop2[i + 1]
      {
        if i < |loop| - 1 {
          assert loop2[i] == loop[i] && loop2[i + 1] == loop[i + 1];
        }
      }
    }
    JoinDistinct(loop, [cur]);
  }

  /** One inner walk from `start`: the vertices visited, each removed from
      `m`, and what is left of `m`. */
  method WalkOne<V(==)>(succ: map<V, V>, m: map<V, V>, start: V) returns (loop: seq<V>, rest: map<V, V>)
    requires start in m && forall v :: v in m ==> v in succ && m[v] == succ[v]
    ensures |loop| > 0 && loop[0] == start && Chained(succ, loop) && NoDuplicates(loop)
    ensures Elems(loop) !! rest.Keys && Elems(loop) + rest.Keys == m.Keys
    ensures forall v :: v in rest ==> rest[v] == m[v]
    ensures |rest| < |m|
    ensures StopsOutside(succ, loop, rest.Keys)
  {
    loop := [start];
    rest := m - {start};
    var cur := m[start];
    assert Elems(loop) == {start};
    while cur in rest
      invariant InnerState(succ, m, start, loop, cur, rest)
      decreases |rest|
    {
      InnerStep(succ, m, start, loop, cur, rest);
      loop, cur, rest := loop + [cur], rest[cur], rest - {cur};
    }
    assert start !in rest;
  }

  /** The loops before loop `n` come first in the concatenation. */
  lemma {:induction false} ConcatPrefix<V>(loops: seq<seq<V>>, n: nat)
    requires n <= |loops|
    ensures |Concat(loops[..n])| <= |Concat(loops)|
    ensures Concat(loops)[..|Concat(loops[..n])|] == Concat(loops[..n])
    decreases |loops|
  {
    if n < |loops| {
      var init := loops[..|loops| - 1];
      assert init[..n] == loops[..n];
      ConcatPrefix(init, n);
    } else {
      assert loops[..n] == loops;
    }
  }

  lemma ConcatNext<V>(loops: seq<seq<V>>, i: nat)
    requires i < |loops|
    ensures Concat(loops[..i + 1]) == Concat(loops[..i]) + loops[i]
  {
    assert loops[..i + 1][..i] == loops[..i];
  }

  /** A vertex of the concatenation lies in one of the loops. */
  lemma {:induction false} ConcatMember<V>(loops: seq<seq<V>>, v: V) returns (j: nat)
    requires v in Concat(loops)
    ensures j < |loops| && v in loops[j]
    decreases |loops|
  {
    var n := |loops| - 1;
    if v in loops[n] {
      j := n;
    } else {
      j := ConcatMember(loops[..n], v);
    }
  }

  /** The loops up to loop `i` repeat no vertex. */
  lemma WalkedPrefix<V>(succ: map<V, V>, loops: seq<seq<V>>, i: nat)
    requires IsWalk(succ, loops) && i < |loops|
    ensures NoDuplicates(Concat(loops[..i]) + loops[i])
  {
    ConcatNext(loops, i);
    ConcatPrefix(loops, i + 1);
    var p := Concat(loops[..i + 1]);
    forall x, y | 0 <= x < y < |p|
      ensures p[x] != p[y]
    {
      assert p[x] == Concat(loops)[x] && p[y] == Concat(loops)[y];
    }
  }

  /** The parts of a duplicate-free join are duplicate-free and disjoint. */
  lemma SplitDistinct<V>(a: seq<V>, b: seq<V>)
    requires NoDuplicates(a + b)
    ensures NoDuplicates(b) && Elems(b) !! Elems(a)
  {
    var p := a + b;
    forall x, y | 0 <= x < y < |b|
      ensures b[x] != b[y]
    {
      assert b[x] == p[|a| + x] && b[y] == p[|a| + y];
    }
    forall x, y | 0 <= x < |a| && 0 <= y < |b|
      ensures a[x] != b[y]
    {
      assert a[x] == p[x] && b[y] == p[|a| + y];
    }
  }

  /** Loop `i` of a walk stops at a successor that has no entry or lies in
      loop `i` or an earlier loop. */
  lemma WalkedStop<V>(succ: map<V, V>, loops: seq<seq<V>>, i: nat)
    requires IsWalk(succ, loops) && i < |loops|
    ensures var last := loops[i][|loops[i]| - 1];
      succ[last] in succ ==> succ[last] in Elems(loops[i]) + Elems(Concat(loops[..i]))
  {
    var w := succ[loops[i][|loops[i]| - 1]];
    if w in succ {
      assert w in Elems(Concat(loops));
      var j := ConcatMember(loops, w);
      if j < i {
        ConcatHolds(loops[..i], j);
        assert loops[..i][j] == loops[j];
      }
    }
  }

  /** Loop `i` of a walk repeats no vertex, shares none with the loops before
      it, and stops at a successor that has no entry or lies in loop `i` or
      an earlier loop. */
  lemma WalkedLoop<V>(succ: map<V, V>, loops: seq<seq<V>>, i: nat)
    requires IsWalk(succ, loops) && i < |loops|
    ensures NoDuplicates(loops[i])
    ensures Elems(loops[i]) !! Elems(Concat(loops[..i]))
    ensures var last := loops[i][|loops[i]| - 1];
      succ[last] in succ ==> succ[last] in Elems(loops[i]) + Elems(Concat(loops[..i]))
  {
    WalkedPrefix(succ, loops, i);
    SplitDistinct(Concat(loops[..i]), loops[i]);
    WalkedStop(succ, loops, i);
  }

  /** Two successor chains from the same vertex agree as far as both go. */
  lemma {:induction false} ChainsAgree<V>(succ: map<V, V>, x: seq<V>, y: seq<V>, k: nat)
    requires |x| > 0 && |y| > 0 && x[0] == y[0]
    requires Chained(succ, x) && Chained(succ, y)
    requires k < |x| && k < |y|
    ensures x[k] == y[k]
    decreases k
  {
    if k > 0 {
      ChainsAgree(succ, x, y, k - 1);
    }
  }

  /** A loop that stops before another chain from the same start is a proper
      prefix of it is impossible when that chain avoids the earlier loops. */
  lemma NotShorter<V>(succ: map<V, V>, a: seq<seq<V>>, b: seq<seq<V>>, i: nat)
    requires IsWalk(succ, a) && IsWalk(succ, b) && i < |a| && i < |b|
    requires a[..i] == b[..i] && a[i][0] == b[i][0]
    ensures |a[i]| >= |b[i]|
  {
    var x, y := a[i], b[i];
    if |x| < |y| {
      var n := |x|;
      ChainsAgree(succ, x, y, n - 1);
      WalkedLoop(succ, a, i);
      WalkedLoop(succ, b, i);
      var w := y[n];
      assert w == succ[x[n - 1]];
      assert w in succ;
      assert w !in Elems(Concat(b[..i]));
      var k :| 0 <= k < n && x[k] == w;
      ChainsAgree(succ, x, y, k);
      assert false;
    }
  }

  /** The walk is determined by where each loop starts: two walks over the
      same successors whose loops start at the same vertices are equal. */
  lemma WalkDeterminedByStarts<V>(succ: map<V, V>, a: seq<seq<V>>, b: seq<seq<V>>)
    requires IsWalk(succ, a) && IsWalk(succ, b) && |a| == |b|
    requires forall i :: 0 <= i < |a| ==> a[i][0] == b[i][0]
    ensures a == b
  {
    var n := 0;
    while n < |a|
      invariant n <= |a| && a[..n] == b[..n]
    {
      NotShorter(succ, a, b, n);
      NotShorter(succ, b, a, n);
      forall k | 0 <= k < |a[n]|
        ensures a[n][k] == b[n][k]
      {
        ChainsAgree(succ, a[n], b[n], k);
      }
      assert a[n] == b[n];
      assert a[..n + 1] == a[..n] + [a[n]] && b[..n + 1] == b[..n] + [b[n]];
      n := n + 1;
    }
    assert a == a[..n] && b == b[..n];
  }

  // ---------------------------------------------------------------------
  // _loops, _U0, _totLength

  /** The length `getBoundingEdges` adds up for a loop: the distance from each
      vertex to its successor, the edge it erases. */
  function LoopLength<V(==)>(dist: (V, V) -> real, succ: map<V, V>, loop: seq<V>): real
    requires forall v :: v in loop ==> v in succ
    decreases |loop|
  {
    if loop == [] then 0.0
    else LoopLength(dist, succ, loop[..|loop| - 1]) + dist(loop[|loop| - 1], succ[loop[|loop| - 1]])
  }

  /** Each walked loop is part of the concatenation. */
  lemma {:induction false} ConcatHolds<V>(loops: seq<seq<V>>, i: nat)
    requires i < |loops|
    ensures Elems(loops[i]) <= Elems(Concat(loops))
    decreases |loops|
  {
    var n := |loops| - 1;
    if i < n {
      ConcatHolds(loops[..n], i);
    }
  }

  /** Every vertex of a walked loop has a successor. */
  lemma WalkedLoopsInMap<V>(succ: map<V, V>, loops: seq<seq<V>>)
    requires Elems(Concat(loops)) == succ.Keys
    ensures forall l, v :: l in loops && v in l ==> v in succ
  {
    forall l, v | l in loops && v in l
      ensures v in succ
    {
      var i :| 0 <= i < |loops| && loops[i] == l;
      ConcatHolds(loops, i);
    }
  }

  /** A value of `lens` has a first occurrence. */
  lemma {:induction false} FirstIndex(lens: seq<real>, x: real) returns (i: nat)
    requires x in lens
    ensures i < |lens| && lens[i] == x && forall j :: 0 <= j < i ==> lens[j] != x
    decreases |lens|
  {
    if lens[0] == x {
      i := 0;
    } else {
      var i' := FirstIndex(lens[1..], x);
      i := i' + 1;
    }
  }

  /** `_loops` after inserting `(lens[i], loops[i])` in order: like
      `std::map::insert`, a length already present keeps its first loop. */
  function InsertLoops<V>(lens: seq<real>, loops: seq<seq<V>>): map<real, seq<V>>
    requires |lens| == |loops|
    decreases |lens|
  {
    if lens == [] then map[]
    else
      var m := InsertLoops(lens[..|lens| - 1], loops[..|loops| - 1]);
      if lens[|lens| - 1] in m then m else m[lens[|lens| - 1] := loops[|loops| - 1]]
  }

  /** Every length is a key of `_loops`, and the loop stored under it is the
      first loop with that length. */
  lemma {:induction false} InsertLoopsKeepsFirst<V>(lens: seq<real>, loops: seq<seq<V>>)
    requires |lens| == |loops|
    ensures forall x :: x in InsertLoops(lens, loops) <==> x in lens
    ensures forall i :: 0 <= i < |lens| && (forall j :: 0 <= j < i ==> lens[j] != lens[i]) ==>
      lens[i] in InsertLoops(lens, loops) && InsertLoops(lens, loops)[lens[i]] == loops[i]
    decreases |lens|
  {
    if lens != [] {
      var n := |lens| - 1;
      InsertLoopsKeepsFirst(lens[..n], loops[..n]);
      assert forall x :: x in lens <==> x in lens[..n] || x == lens[n];
    }
  }

  /** `_loops.rbegin()`: the entry with the greatest length; `None` for an
      empty `_loops`, where the source's dereference is undefined. */
  method LongestLoop<V(==)>(loopMap: map<real, seq<V>>) returns (r: Option<(real, seq<V>)>)
    ensures r.None? <==> loopMap == map[]
    ensures r.Some? ==> r.value.0 in loopMap && loopMap[r.value.0] == r.value.1
    ensures r.Some? ==> forall x :: x in loopMap ==> x <= r.value.0
  {
    if loopMap == map[] {
      return None;
    }
    var first :| first in loopMap.Items;
    var best := first.0;
    var rest := loopMap - {best};
    while rest != map[]
      invariant best in loopMap && rest.Keys <= loopMap.Keys
      invariant forall x :: x in loopMap && x !in rest ==> x <= best
      decreases |rest|
    {
      var next :| next in rest.Items;
      if next.0 > best {
        best := next.0;
      }
      rest := rest - {next.0};
    }
    return Some((best, loopMap[best]));
  }

  /** `firstNode2Edge` for the stored edges `all`: each first vertex mapped to
      its edge's last vertex. */
  ghost predicate SuccessorsOf<V>(all: EdgeSet<V>, succ: map<V, V>) {
    && succ.Keys == (set k | k in all :: all[k].0)
    && (forall k :: k in all ==> succ[all[k].0] == all[k].1)
  }

  /** `u0` is one of the walked `loops`, `len` is its length, and no walked
      loop is longer. */
  ghost predicate LongestWalked<V>(dist: (V, V) -> real, succ: map<V, V>, loops: seq<seq<V>>, u0: seq<V>, len: real) {
    && IsWalk(succ, loops)
    && u0 in loops
    && len == LoopLength(dist, succ, u0)
    && (forall l :: l in loops ==> LoopLength(dist, succ, l) <= len)
  }

  /** `getBoundingEdges`: the boundary loop the parametrisation is pinned to
      (`_U0`) and its length (`_totLength`). `None` when two boundary edges
      start at the same vertex (the source stops with a fatal error) and when
      there is no boundary edge at all (the source reads past an empty
      `_loops`). Otherwise `_U0` is a longest loop of a walk over
      `firstNode2Edge` and `_totLength` its length, and each vertex of `_U0`
      but the last is joined to the next by a boundary edge stored in that
      direction. */
  method BoundingLoop<V(==)>(tris: seq<Triangle<V>>, dist: (V, V) -> real) returns (r: Option<(seq<V>, real)>)
    ensures var all := Toggle(AllTriangleEdges(tris));
      r.None? <==> !DistinctFirsts(all) || all == map[]
    ensures var all := Toggle(AllTriangleEdges(tris));
      r.Some? ==> exists succ, loops :: SuccessorsOf(all, succ) && LongestWalked(dist, succ, loops, r.value.0, r.value.1)
    ensures var all := Toggle(AllTriangleEdges(tris));
      r.Some? ==> |r.value.0| > 0 && forall i :: 0 <= i < |r.value.0| - 1 ==>
        var e := (r.value.0[i], r.value.0[i + 1]); EdgeKey(e) in all && all[EdgeKey(e)] == e
  {
    var all := BoundaryEdges(tris);
    var first := FirstNodeMap(all);
    if first.None? {
      return None;
    }
    var succ := first.value;
    var loops := WalkLoops(succ);
    WalkedLoopsInMap(succ, loops);
    var lens := seq(|loops|, i requires 0 <= i < |loops| => LoopLength(dist, succ, loops[i]));
    InsertLoopsKeepsFirst(lens, loops);
    var loopMap := InsertLoops(lens, loops);
    if all == map[] {
      assert loops == [];
      assert loopMap == map[];
    } else {
      var k :| k in all;
      assert all[k].0 in succ;
      assert loops != [];
      assert lens[0] in loopMap;
    }
    var longest := LongestLoop(loopMap);
    if longest.None? {
      return None;
    }
    var u0 := longest.value.1;
    ghost var i := FirstIndex(lens, longest.value.0);
    assert u0 == loops[i] && u0 in loops;
    assert SuccessorsOf(all, succ);
    forall l | l in loops
      ensures LoopLength(dist, succ, l) <= longest.value.0
    {
      var j :| 0 <= j < |loops| && loops[j] == l;
      assert lens[j] in loopMap;
    }
    assert LongestWalked(dist, succ, loops, u0, longest.value.0);
    forall j | 0 <= j < |u0| - 1
      ensures var e := (u0[j], u0[j + 1]); EdgeKey(e) in all && all[EdgeKey(e)] == e
    {
      var k :| k in all && all[k].0 == u0[j];
    }
    return Some((u0, longest.value.0));
  }
}
