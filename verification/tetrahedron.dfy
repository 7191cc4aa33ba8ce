/** The first- and second-order tetrahedra of Geo/MTetrahedron.h:
    `MTetrahedron` holds its four corners `_v`, `MTetrahedron10` adds the six
    mid-edge nodes `_vs`, node `i` sitting on edge `i` of `edges_tetra`. */
module Tetrahedra {
  import opened Wrappers
  import opened Chains
  import opened TetTables

  /** `_v[4]` */
  type Corners = s: seq<Vertex> | |s| == 4 witness [0, 0, 0, 0]

  /** `MTetrahedron10::_vs[6]` */
  type MidNodes = s: seq<Vertex> | |s| == 6 witness [0, 0, 0, 0, 0, 0]

  /** Four distinct corner vertices. */
  predicate DistinctCorners(v: seq<Vertex>) {
    |v| == 4 && forall i, j :: 0 <= i < j < 4 ==> v[i] != v[j]
  }

  /** `getEdgeVertices(num)` of `MTetrahedron`: the corners of edge `num`,
      tail first; two different vertices when the corners are distinct. */
  function EdgeVertices(v: Corners, num: nat): (r: seq<Vertex>)
    requires num < 6
    ensures |r| == 2
    ensures r[0] == v[Edges[num][0]] && r[1] == v[Edges[num][1]]
    ensures DistinctCorners(v) ==> r[0] != r[1]
  {
    assert 0 <= Edges[num][0] < 4 && 0 <= Edges[num][1] < 4 && Edges[num][0] != Edges[num][1] by {
      EdgesJoinCorners();
    }
    [v[Edges[num][0]], v[Edges[num][1]]]
  }

  /** `getFaceVertices(num)` of `MTetrahedron`: the corners of face `num` in
      the face's cyclic order. */
  function FaceVertices(v: Corners, num: nat): (r: seq<Vertex>)
    requires num < 4
    ensures |r| == 3
    ensures forall j :: 0 <= j < 3 ==> r[j] == v[Faces[num][j]]
    ensures DistinctCorners(v) ==> r[0] != r[1] && r[1] != r[2] && r[2] != r[0] && v[3 - num] !in r
  {
    assert FaceSet(num) == {0, 1, 2, 3} - {3 - num} by {
      FacesOmitOneCorner();
    }
    assert forall j :: 0 <= j < 3 ==> 0 <= Faces[num][j] < 4 by {
      FacesOmitOneCorner();
    }
    assert Faces[num][0] != Faces[num][1] && Faces[num][1] != Faces[num][2] && Faces[num][2] != Faces[num][0] by {
      FacesOmitOneCorner();
    }
    [v[Faces[num][0]], v[Faces[num][1]], v[Faces[num][2]]]
  }

  /** `q` lists the same cycle of three vertices as `p`, from any start. */
  predicate SameCycle(p: seq<Vertex>, q: seq<Vertex>)
    requires |p| == 3 && |q| == 3
  {
    q == p || q == [p[1], p[2], p[0]] || q == [p[2], p[0], p[1]]
  }

  /** `MTetrahedron::revert`: swap corners 0 and 1. Corners 0 and 1 trade
      places as a pair, corners 2 and 3 stay. */
  function Revert(v: Corners): (r: Corners)
    ensures {r[0], r[1]} == {v[0], v[1]}
    ensures r[2..] == v[2..]
  {
    [v[1], v[0], v[2], v[3]]
  }

  /** Reverting permutes the corners, so distinct corners stay distinct. */
  lemma RevertPermutes(v: Corners)
    ensures multiset(Revert(v)) == multiset(v)
    ensures DistinctCorners(v) ==> DistinctCorners(Revert(v))
  {
    assert v == [v[0]] + [v[1]] + [v[2]] + [v[3]];
    assert Revert(v) == [v[1]] + [v[0]] + [v[2]] + [v[3]];
  }

  /** Reverting twice restores the corners. */
  lemma RevertInvolution(v: Corners)
    ensures Revert(Revert(v)) == v
  {
  }

  /** Which original face each face of the reverted tetrahedron is. */
  const RevertedFace: seq<nat> := [0, 1, 3, 2]

  /** Reverting flips the orientation of every face: each face of the
      reverted tetrahedron is a face of the original traversed the other
      way. */
  lemma RevertFlipsFaces(v: Corners, f: nat)
    requires f < 4
    ensures exists g :: 0 <= g < 4 && SameCycle(FaceVertices(Revert(v), f), [FaceVertices(v, g)[2], FaceVertices(v, g)[1], FaceVertices(v, g)[0]])
  {
    var g := RevertedFace[f];
    var p := FaceVertices(Revert(v), f);
    var q := FaceVertices(v, g);
    assert SameCycle(p, [q[2], q[1], q[0]]) by {
      assert f == 0 || f == 1 || f == 2 || f == 3;
    }
  }

  /** `MTetrahedron10` */
  datatype Tet10 = Tet10(v: Corners, vs: MidNodes)

  /** `MTetrahedron10::revert`: swap corners 0 and 1, and with them the nodes
      of edges 1 and 2 and of edges 3 and 5. The nodes of edges 0 and 4, which
      the swap maps onto themselves, stay. */
  function Revert10(t: Tet10): (r: Tet10)
    ensures r.v == Revert(t.v)
    ensures r.vs[0] == t.vs[0] && r.vs[4] == t.vs[4]
  {
    var vs := t.vs;
    Tet10(Revert(t.v), [vs[0], vs[2], vs[1], vs[5], vs[4], vs[3]])
  }

  lemma Revert10Involution(t: Tet10)
    ensures Revert10(Revert10(t)) == t
  {
  }

  /** `revert` only permutes the vertices. */
  lemma Revert10Permutes(t: Tet10)
    ensures multiset(Revert10(t).v) == multiset(t.v)
    ensures multiset(Revert10(t).vs) == multiset(t.vs)
  {
    var v, vs := t.v, t.vs;
    assert v == [v[0]] + [v[1]] + [v[2]] + [v[3]];
    assert vs == [vs[0]] + [vs[1]] + [vs[2]] + [vs[3]] + [vs[4]] + [vs[5]];
    assert Revert10(t).v == [v[1]] + [v[0]] + [v[2]] + [v[3]];
    assert Revert10(t).vs == [vs[0]] + [vs[2]] + [vs[1]] + [vs[5]] + [vs[4]] + [vs[3]];
  }

  /** Edge `i` of `v` and edge `j` of `w` join the same two vertices. */
  predicate SameEdge(v: Corners, i: nat, w: Corners, j: nat)
    requires i < 6 && j < 6
  {
    EdgeVertices(v, i) == EdgeVertices(w, j) || EdgeVertices(v, i) == [EdgeVertices(w, j)[1], EdgeVertices(w, j)[0]]
  }

  /** Which original edge each edge of the reverted 10-node tetrahedron is. */
  const Reverted10Edge: seq<nat> := [0, 2, 1, 5, 4, 3]

  /** After `revert`, every mid-edge node still sits on the edge joining the
      same two vertices as before. */
  lemma Revert10KeepsNodesOnEdges(t: Tet10, i: nat)
    requires i < 6
    ensures exists j :: 0 <= j < 6 && SameEdge(Revert10(t).v, i, t.v, j) && Revert10(t).vs[i] == t.vs[j]
  {
    var j := Reverted10Edge[i];
    assert SameEdge(Revert10(t).v, i, t.v, j) && Revert10(t).vs[i] == t.vs[j] by {
      assert i == 0 || i == 1 || i == 2 || i == 3 || i == 4 || i == 5;
    }
  }

  /** `MTetrahedron10::getEdgeVertices(num)`: the corners of edge `num`,
      then its node. */
  function EdgeVertices10(t: Tet10, num: nat): (r: seq<Vertex>)
    requires num < 6
    ensures |r| == 3 && r[..2] == EdgeVertices(t.v, num) && r[2] == t.vs[num]
  {
    EdgeVertices(t.v, num) + [t.vs[num]]
  }

  /** The node numbers `MTetrahedron10::getFaceVertices` lists for each face:
      the numbers of the face's mid-edge nodes in the element's numbering,
      where node `4 + i` is `_vs[i]`. */
  const Face10Nodes: seq<seq<nat>> := [[4, 5, 6], [4, 7, 9], [6, 7, 8], [5, 8, 9]]

  /** Reading entry `i` of an array of `|s|` entries: `None` past the end. */
  function ReadAt(s: seq<Vertex>, i: nat): (r: Option<Vertex>)
    ensures r.Some? <==> i < |s|
    ensures r.Some? ==> r.value == s[i]
  {
    if i < |s| then Some(s[i]) else None
  }

  /** `MTetrahedron10::getFaceVertices(num)` as written: it reads
      `_vs[f[num][k]]`, indexing the six-entry `_vs` with node numbers 4..9.
      Each slot of the result is the vertex read, `None` for a read past the
      end of `_vs`. */
  function FaceVertices10AsWritten(t: Tet10, num: nat): (r: seq<Option<Vertex>>)
    requires num < 4
    ensures |r| == 6
    ensures forall j :: 0 <= j < 3 ==> r[j] == Some(FaceVertices(t.v, num)[j])
  {
    var f := Face10Nodes[num];
    var c := FaceVertices(t.v, num);
    [Some(c[0]), Some(c[1]), Some(c[2]), ReadAt(t.vs, f[0]), ReadAt(t.vs, f[1]), ReadAt(t.vs, f[2])]
  }

  /** Every face lists a node number of 6 or more, so every call reads past
      the end of `_vs`. */
  lemma FaceVertices10AsWrittenOutOfBounds(t: Tet10, num: nat)
    requires num < 4
    ensures exists k :: 3 <= k < 6 && FaceVertices10AsWritten(t, num)[k] == None
  {
    assert FaceVertices10AsWritten(t, num)[5] == None by {
      assert num == 0 || num == 1 || num == 2 || num == 3;
    }
  }

  /** `MTetrahedron10::getFaceVertices(num)` reading `_vs` at the node number
      minus 4: the face's corners, then its three mid-edge nodes. */
  function FaceVertices10(t: Tet10, num: nat): (r: seq<Vertex>)
    requires num < 4
    ensures |r| == 6 && r[..3] == FaceVertices(t.v, num)
  {
    var f := Face10Nodes[num];
    assert 4 <= f[0] < 10 && 4 <= f[1] < 10 && 4 <= f[2] < 10 by {
      assert num == 0 || num == 1 || num == 2 || num == 3;
    }
    FaceVertices(t.v, num) + [t.vs[f[0] - 4], t.vs[f[1] - 4], t.vs[f[2] - 4]]
  }

  /** The edge that side `j` of face `f` runs along. */
  function SideEdge(f: nat, j: nat): (e: nat)
    requires f < 4 && j < 3
    ensures e < 6
  {
    FacesOmitOneCorner();
    EdgeBetween(Side(f, j).0, Side(f, j).1).0
  }

  /** The three mid-edge nodes `getFaceVertices` lists for a face are
      exactly the nodes of the face's three sides. */
  lemma FaceVertices10ListsSideNodes(t: Tet10, f: nat)
    requires f < 4
    ensures {FaceVertices10(t, f)[3], FaceVertices10(t, f)[4], FaceVertices10(t, f)[5]}
         == {t.vs[SideEdge(f, 0)], t.vs[SideEdge(f, 1)], t.vs[SideEdge(f, 2)]}
  {
    assert f == 0 || f == 1 || f == 2 || f == 3;
  }

  /** The `MElement` view of a first-order tetrahedron that
      `getCoefficient(e, subElement)` works with. */
  function TetElement(v: Corners): (e: MeshElement)
    ensures e.dim == 3 && e.cellType == Tet && e.verts == v && e.nodes == v
    ensures |e.edgeVerts| == 6 && |e.faceVerts| == 4
  {
    MeshElement(3, Tet, v, v, seq(6, i requires 0 <= i < 6 => EdgeVertices(v, i)), seq(4, f requires 0 <= f < 4 => FaceVertices(v, f)))
  }

  /** In a 2-chain, the coefficient of face `i` of a tetrahedron is that of
      the triangle of the face's corners in the face's order; past the last
      face it is zero. */
  lemma TetFaceCoefficient(o: Orientation, c: Chain, v: Corners, i: nat)
    requires c.dim == 2
    ensures CoefficientOfElement(o, c, TetElement(v), i) == if i < 4 then Coefficient(o, c, Elem(2, FaceVertices(v, i))) else 0
  {
    if i < 4 {
      assert Resize(FaceVertices(v, i), 3) == FaceVertices(v, i);
    }
  }

  /** In a 1-chain, the coefficient of edge `i` of a tetrahedron is that of
      the segment from its tail corner to its head corner. */
  lemma TetEdgeCoefficient(o: Orientation, c: Chain, v: Corners, i: nat)
    requires c.dim == 1
    ensures CoefficientOfElement(o, c, TetElement(v), i) == if i < 6 then Coefficient(o, c, Elem(1, EdgeVertices(v, i))) else 0
  {
    if i < 6 {
      assert Resize(EdgeVertices(v, i), 2) == EdgeVertices(v, i);
    }
  }
}
