/** `MTetrahedronN` of Geo/MTetrahedron.h: a tetrahedron of polynomial order
    `order` whose corners `_v` are followed by the nodes `_vs`. With
    E = order - 1 and F = (order - 1)(order - 2) / 2, the layout puts E
    nodes on each edge (edge `i` at `_vs[i*E ..]`, from the edge's tail to
    its head), then F nodes inside each face (face `j` at `_vs[6E + j*F ..]`),
    then the volume nodes. */
module TetHighOrder {
  import opened Chains
  import opened Seqs
  import opened TetTables
  import opened Tetrahedra

  /** `MTetrahedronN`: corners, further nodes, and `_order`. */
  datatype TetN = TetN(v: Corners, vs: seq<Vertex>, order: int)

  /** The MSH element types `getTypeForMSH` tells apart. */
  datatype MshType = Tet20 | Tet34 | Tet35 | Tet56 | Tet52 | NoMshType

  /** `getNumVertices()` */
  function NumVertices(t: TetN): nat {
    4 + |t.vs|
  }

  /** `getNumEdgeVertices()`: E nodes on each of the six edges. */
  function NumEdgeVertices(t: TetN): int {
    6 * (t.order - 1)
  }

  /** Nodes inside one face: `(order - 1) * (order - 2) / 2`. The product of
      two consecutive integers is even and never negative, so the division is
      exact whatever the rounding. */
  function FaceInterior(order: int): (r: nat)
    ensures 2 * r == (order - 1) * (order - 2)
  {
    ConsecutiveProduct(order - 2);
    ((order - 1) * (order - 2)) / 2
  }

  lemma ConsecutiveProduct(n: int)
    ensures (n + 1) * n >= 0 && ((n + 1) * n) % 2 == 0
  {
    ProductOfSameSigns(n);
    var k := n / 2;
    if n % 2 == 0 {
      assert n == 2 * k;
      assert (n + 1) * n == 2 * ((n + 1) * k);
      DoubleIsEven((n + 1) * k);
    } else {
      assert n == 2 * k + 1;
      assert (n + 1) * n == 2 * ((k + 1) * n);
      DoubleIsEven((k + 1) * n);
    }
  }

  lemma ProductOfSameSigns(n: int)
    ensures (n + 1) * n >= 0
  {
    if n < 0 {
      assert (n + 1) * n == (-(n + 1)) * (-n);
    }
  }

  lemma DoubleIsEven(y: int)
    ensures (2 * y) % 2 == 0
  {
  }

  /** `getNumFaceVertices()`: `4 * ((order - 1) * (order - 2)) / 2`. */
  function NumFaceVertices(t: TetN): (r: int)
    ensures r == 4 * FaceInterior(t.order)
  {
    ConsecutiveProduct(t.order - 2);
    (4 * ((t.order - 1) * (t.order - 2))) / 2
  }

  /** `getTypeForMSH()`: the type of a complete or incomplete tetrahedron of
      order 3, 4 or 5, by order and vertex count. */
  function TypeForMsh(t: TetN): (r: MshType)
    ensures r == Tet20 <==> t.order == 3 && NumVertices(t) == 20
    ensures r == Tet34 <==> t.order == 4 && NumVertices(t) == 34
    ensures r == Tet35 <==> t.order == 4 && NumVertices(t) == 35
    ensures r == Tet56 <==> t.order == 5 && NumVertices(t) == 56
    ensures r == Tet52 <==> t.order == 5 && NumVertices(t) == 52
  {
    var n := NumVertices(t);
    if t.order == 3 && n == 20 then Tet20
    else if t.order == 4 && n == 34 then Tet34
    else if t.order == 4 && n == 35 then Tet35
    else if t.order == 5 && n == 56 then Tet56
    else if t.order == 5 && n == 52 then Tet52
    else NoMshType
  }

  /** `getNumVolumeVertices()`: one for TET_35, four for TET_56, none
      otherwise. */
  function NumVolumeVertices(t: TetN): (r: nat)
    ensures r != 0 <==> TypeForMsh(t) == Tet35 || TypeForMsh(t) == Tet56
  {
    match TypeForMsh(t)
    case Tet35 => 1
    case Tet56 => 4
    case _ => 0
  }

  /** For every type `getTypeForMSH` recognises, the corners, edge, face and
      volume nodes add up to the vertex count, as the layout says. */
  lemma VertexCountsAddUp(t: TetN)
    requires TypeForMsh(t) != NoMshType
    ensures 4 + NumEdgeVertices(t) + NumFaceVertices(t) + NumVolumeVertices(t) == NumVertices(t)
  {
  }

  // ---------------------------------------------------------------------
  // revert

  /** `reverseTet20`: node `i` of the reverted element is node
      `reverseTet20[i]` of the original. */
  const ReverseTet20: seq<int> := [0, 2, 1, 3, 9, 8, 7, 6, 5, 4, 10, 11, 14, 15, 12, 13, 16, 18, 17, 19]

  /** `reverseTet35` */
  const ReverseTet35: seq<int> := [0, 2, 1, 3, 12, 11, 10, 9, 8, 7, 6, 5, 4, 13, 14, 15, 19, 20, 21, 16, 17, 18,
                                   22, 24, 23, 28, 30, 29, 25, 27, 26, 31, 33, 32, 34]

  /** `reverseTet34` as written: unlike `reverseTet35` it keeps the nodes of
      faces 1 and 2 in their original order. */
  const ReverseTet34AsWritten: seq<int> := [0, 2, 1, 3, 12, 11, 10, 9, 8, 7, 6, 5, 4, 13, 14, 15, 19, 20, 21, 16, 17, 18,
                                            22, 24, 23, 28, 29, 30, 25, 26, 27, 31, 33, 32]

  /** `reverseTet34` with the nodes of faces 1 and 2 reordered like those of
      faces 0 and 3 (and like `reverseTet35`). */
  const ReverseTet34: seq<int> := [0, 2, 1, 3, 12, 11, 10, 9, 8, 7, 6, 5, 4, 13, 14, 15, 19, 20, 21, 16, 17, 18,
                                   22, 24, 23, 28, 30, 29, 25, 27, 26, 31, 33, 32]

  /** The corrected `reverseTet34` is `reverseTet35` without the volume node,
      and differs from the table as written only on the nodes of faces 1
      and 2. */
  lemma ReverseTet34Corrected()
    ensures ReverseTet34 == ReverseTet35[..34]
    ensures |ReverseTet34AsWritten| == |ReverseTet34|
    ensures forall i :: 0 <= i < 34 && !(25 <= i < 31) ==> ReverseTet34AsWritten[i] == ReverseTet34[i]
    ensures ReverseTet34AsWritten[26] != ReverseTet34[26]
  {
  }

  /** A table that sends every node after the corners to such a node. */
  ghost predicate MapsNodes(T: seq<int>) {
    forall i :: 4 <= i < |T| ==> 4 <= T[i] < |T|
  }

  /** A table `revert` can apply to `_vs`. */
  ghost predicate IsReversal(T: seq<int>) {
    && |T| >= 4
    && T[..4] == [0, 2, 1, 3]
    && (forall i :: 0 <= i < |T| ==> 0 <= T[i] < |T|)
    && (forall i :: 0 <= i < |T| ==> T[T[i]] == i)
    && (forall i :: 4 <= i < |T| ==> 4 <= T[i])
  }

  /** An involution is a permutation. */
  lemma ReversalIsPermutation(T: seq<int>)
    requires IsReversal(T)
    ensures forall i, j :: 0 <= i < j < |T| ==> T[i] != T[j]
  {
    forall i, j | 0 <= i < j < |T|
      ensures T[i] != T[j]
    {
      assert T[T[i]] == i && T[T[j]] == j;
    }
  }

  /** `T` maps each of the entries `lo..hi-1` into `T`, back again, and
      non-corners to non-corners. */
  ghost predicate ReversesOn(T: seq<int>, lo: nat, hi: nat)
    requires hi <= |T|
  {
    forall i :: lo <= i < hi ==> 0 <= T[i] < |T| && T[T[i]] == i && (4 <= i ==> 4 <= T[i])
  }

  /** The tables are involutions of 0..n-1 that swap corners 1 and 2 and map
      the other nodes among themselves. */
  lemma ReverseTet20IsReversal()
    ensures |ReverseTet20| == 20 && IsReversal(ReverseTet20)
  {
    ReverseTet20IsReversalOn0();
    ReverseTet20IsReversalOn6();
    ReverseTet20IsReversalOn12();
    ReverseTet20IsReversalOn18();
  }

  lemma ReverseTet20IsReversalOn0()
    ensures |ReverseTet20| == 20 && ReversesOn(ReverseTet20, 0, 6)
  {
    forall i | 0 <= i < 6
      ensures 0 <= ReverseTet20[i] < 20 && ReverseTet20[ReverseTet20[i]] == i && (4 <= i ==> 4 <= ReverseTet20[i])
    {
      assert i == 0 || i == 1 || i == 2 || i == 3 || i == 4 || i == 5;
    }
  }

  lemma ReverseTet20IsReversalOn6()
    ensures |ReverseTet20| == 20 && ReversesOn(ReverseTet20, 6, 12)
  {
    forall i | 6 <= i < 12
      ensures 0 <= ReverseTet20[i] < 20 && ReverseTet20[ReverseTet20[i]] == i && (4 <= i ==> 4 <= ReverseTet20[i])
    {
      assert i == 6 || i == 7 || i == 8 || i == 9 || i == 10 || i == 11;
    }
  }

  lemma ReverseTet20IsReversalOn12()
    ensures |ReverseTet20| == 20 && ReversesOn(ReverseTet20, 12, 18)
  {
    forall i | 12 <= i < 18
      ensures 0 <= ReverseTet20[i] < 20 && ReverseTet20[ReverseTet20[i]] == i && (4 <= i ==> 4 <= ReverseTet20[i])
    {
      assert i == 12 || i == 13 || i == 14 || i == 15 || i == 16 || i == 17;
    }
  }

  lemma ReverseTet20IsReversalOn18()
    ensures |ReverseTet20| == 20 && ReversesOn(ReverseTet20, 18, 20)
  {
    forall i | 18 <= i < 20
      ensures 0 <= ReverseTet20[i] < 20 && ReverseTet20[ReverseTet20[i]] == i && (4 <= i ==> 4 <= ReverseTet20[i])
    {
      assert i == 18 || i == 19;
    }
  }

  lemma ReverseTet34IsReversal()
    ensures |ReverseTet34| == 34 && IsReversal(ReverseTet34)
  {
    ReverseTet34IsReversalOn0();
    ReverseTet34IsReversalOn6();
    ReverseTet34IsReversalOn12();
    ReverseTet34IsReversalOn18();
    ReverseTet34IsReversalOn24();
    ReverseTet34IsReversalOn30();
  }

  lemma ReverseTet34IsReversalOn0()
    ensures |ReverseTet34| == 34 && ReversesOn(ReverseTet34, 0, 6)
  {
    forall i | 0 <= i < 6
      ensures 0 <= ReverseTet34[i] < 34 && ReverseTet34[ReverseTet34[i]] == i && (4 <= i ==> 4 <= ReverseTet34[i])
    {
      assert i == 0 || i == 1 || i == 2 || i == 3 || i == 4 || i == 5;
    }
  }

  lemma ReverseTet34IsReversalOn6()
    ensures |ReverseTet34| == 34 && ReversesOn(ReverseTet34, 6, 12)
  {
    forall i | 6 <= i < 12
      ensures 0 <= ReverseTet34[i] < 34 && ReverseTet34[ReverseTet34[i]] == i && (4 <= i ==> 4 <= ReverseTet34[i])
    {
      assert i == 6 || i == 7 || i == 8 || i == 9 || i == 10 || i == 11;
    }
  }

  lemma ReverseTet34IsReversalOn12()
    ensures |ReverseTet34| == 34 && ReversesOn(ReverseTet34, 12, 18)
  {
    forall i | 12 <= i < 18
      ensures 0 <= ReverseTet34[i] < 34 && ReverseTet34[ReverseTet34[i]] == i && (4 <= i ==> 4 <= ReverseTet34[i])
    {
      assert i == 12 || i == 13 || i == 14 || i == 15 || i == 16 || i == 17;
    }
  }

  lemma ReverseTet34IsReversalOn18()
    ensures |ReverseTet34| == 34 && ReversesOn(ReverseTet34, 18, 24)
  {
    forall i | 18 <= i < 24
      ensures 0 <= ReverseTet34[i] < 34 && ReverseTet34[ReverseTet34[i]] == i && (4 <= i ==> 4 <= ReverseTet34[i])
    {
      assert i == 18 || i == 19 || i == 20 || i == 21 || i == 22 || i == 23;
    }
  }

  lemma ReverseTet34IsReversalOn24()
    ensures |ReverseTet34| == 34 && ReversesOn(ReverseTet34, 24, 30)
  {
    forall i | 24 <= i < 30
      ensures 0 <= ReverseTet34[i] < 34 && ReverseTet34[ReverseTet34[i]] == i && (4 <= i ==> 4 <= ReverseTet34[i])
    {
      assert i == 24 || i == 25 || i == 26 || i == 27 || i == 28 || i == 29;
    }
  }

  lemma ReverseTet34IsReversalOn30()
    ensures |ReverseTet34| == 34 && ReversesOn(ReverseTet34, 30, 34)
  {
    forall i | 30 <= i < 34
      ensures 0 <= ReverseTet34[i] < 34 && ReverseTet34[ReverseTet34[i]] == i && (4 <= i ==> 4 <= ReverseTet34[i])
    {
      assert i == 30 || i == 31 || i == 32 || i == 33;
    }
  }

  lemma ReverseTet34AsWrittenIsReversal()
    ensures |ReverseTet34AsWritten| == 34 && IsReversal(ReverseTet34AsWritten)
  {
    ReverseTet34AsWrittenIsReversalOn0();
    ReverseTet34AsWrittenIsReversalOn6();
    ReverseTet34AsWrittenIsReversalOn12();
    ReverseTet34AsWrittenIsReversalOn18();
    ReverseTet34AsWrittenIsReversalOn24();
    ReverseTet34AsWrittenIsReversalOn30();
  }

  lemma ReverseTet34AsWrittenIsReversalOn0()
    ensures |ReverseTet34AsWritten| == 34 && ReversesOn(ReverseTet34AsWritten, 0, 6)
  {
    forall i | 0 <= i < 6
      ensures 0 <= ReverseTet34AsWritten[i] < 34 && ReverseTet34AsWritten[ReverseTet34AsWritten[i]] == i && (4 <= i ==> 4 <= ReverseTet34AsWritten[i])
    {
      assert i == 0 || i == 1 || i == 2 || i == 3 || i == 4 || i == 5;
    }
  }

  lemma ReverseTet34AsWrittenIsReversalOn6()
    ensures |ReverseTet34AsWritten| == 34 && ReversesOn(ReverseTet34AsWritten, 6, 12)
  {
    forall i | 6 <= i < 12
      ensures 0 <= ReverseTet34AsWritten[i] < 34 && ReverseTet34AsWritten[ReverseTet34AsWritten[i]] == i && (4 <= i ==> 4 <= ReverseTet34AsWritten[i])
    {
      assert i == 6 || i == 7 || i == 8 || i == 9 || i == 10 || i == 11;
    }
  }

  lemma ReverseTet34AsWrittenIsReversalOn12()
    ensures |ReverseTet34AsWritten| == 34 && ReversesOn(ReverseTet34AsWritten, 12, 18)
  {
    forall i | 12 <= i < 18
      ensures 0 <= ReverseTet34AsWritten[i] < 34 && ReverseTet34AsWritten[ReverseTet34AsWritten[i]] == i && (4 <= i ==> 4 <= ReverseTet34AsWritten[i])
    {
      assert i == 12 || i == 13 || i == 14 || i == 15 || i == 16 || i == 17;
    }
  }

  lemma ReverseTet34AsWrittenIsReversalOn18()
    ensures |ReverseTet34AsWritten| == 34 && ReversesOn(ReverseTet34AsWritten, 18, 24)
  {
    forall i | 18 <= i < 24
      ensures 0 <= ReverseTet34AsWritten[i] < 34 && ReverseTet34AsWritten[ReverseTet34AsWritten[i]] == i && (4 <= i ==> 4 <= ReverseTet34AsWritten[i])
    {
      assert i == 18 || i == 19 || i == 20 || i == 21 || i == 22 || i == 23;
    }
  }

  lemma ReverseTet34AsWrittenIsReversalOn24()
    ensures |ReverseTet34AsWritten| == 34 && ReversesOn(ReverseTet34AsWritten, 24, 30)
  {
    forall i | 24 <= i < 30
      ensures 0 <= ReverseTet34AsWritten[i] < 34 && ReverseTet34AsWritten[ReverseTet34AsWritten[i]] == i && (4 <= i ==> 4 <= ReverseTet34AsWritten[i])
    {
      assert i == 24 || i == 25 || i == 26 || i == 27 || i == 28 || i == 29;
    }
  }

  lemma ReverseTet34AsWrittenIsReversalOn30()
    ensures |ReverseTet34AsWritten| == 34 && ReversesOn(ReverseTet34AsWritten, 30, 34)
  {
    forall i | 30 <= i < 34
      ensures 0 <= ReverseTet34AsWritten[i] < 34 && ReverseTet34AsWritten[ReverseTet34AsWritten[i]] == i && (4 <= i ==> 4 <= ReverseTet34AsWritten[i])
    {
      assert i == 30 || i == 31 || i == 32 || i == 33;
    }
  }

  lemma ReverseTet35IsReversal()
    ensures |ReverseTet35| == 35 && IsReversal(ReverseTet35)
  {
    ReverseTet35IsReversalOn0();
    ReverseTet35IsReversalOn6();
    ReverseTet35IsReversalOn12();
    ReverseTet35IsReversalOn18();
    ReverseTet35IsReversalOn24();
    ReverseTet35IsReversalOn30();
  }

  lemma ReverseTet35IsReversalOn0()
    ensures |ReverseTet35| == 35 && ReversesOn(ReverseTet35, 0, 6)
  {
    forall i | 0 <= i < 6
      ensures 0 <= ReverseTet35[i] < 35 && ReverseTet35[ReverseTet35[i]] == i && (4 <= i ==> 4 <= ReverseTet35[i])
    {
      assert i == 0 || i == 1 || i == 2 || i == 3 || i == 4 || i == 5;
    }
  }

  lemma ReverseTet35IsReversalOn6()
    ensures |ReverseTet35| == 35 && ReversesOn(ReverseTet35, 6, 12)
  {
    forall i | 6 <= i < 12
      ensures 0 <= ReverseTet35[i] < 35 && ReverseTet35[ReverseTet35[i]] == i && (4 <= i ==> 4 <= ReverseTet35[i])
    {
      assert i == 6 || i == 7 || i == 8 || i == 9 || i == 10 || i == 11;
    }
  }

  lemma ReverseTet35IsReversalOn12()
    ensures |ReverseTet35| == 35 && ReversesOn(ReverseTet35, 12, 18)
  {
    forall i | 12 <= i < 18
      ensures 0 <= ReverseTet35[i] < 35 && ReverseTet35[ReverseTet35[i]] == i && (4 <= i ==> 4 <= ReverseTet35[i])
    {
      assert i == 12 || i == 13 || i == 14 || i == 15 || i == 16 || i == 17;
    }
  }

  lemma ReverseTet35IsReversalOn18()
    ensures |ReverseTet35| == 35 && ReversesOn(ReverseTet35, 18, 24)
  {
    forall i | 18 <= i < 24
      ensures 0 <= ReverseTet35[i] < 35 && ReverseTet35[ReverseTet35[i]] == i && (4 <= i ==> 4 <= ReverseTet35[i])
    {
      assert i == 18 || i == 19 || i == 20 || i == 21 || i == 22 || i == 23;
    }
  }

  lemma ReverseTet35IsReversalOn24()
    ensures |ReverseTet35| == 35 && ReversesOn(ReverseTet35, 24, 30)
  {
    forall i | 24 <= i < 30
      ensures 0 <= ReverseTet35[i] < 35 && ReverseTet35[ReverseTet35[i]] == i && (4 <= i ==> 4 <= ReverseTet35[i])
    {
      assert i == 24 || i == 25 || i == 26 || i == 27 || i == 28 || i == 29;
    }
  }

  lemma ReverseTet35IsReversalOn30()
    ensures |ReverseTet35| == 35 && ReversesOn(ReverseTet35, 30, 35)
  {
    forall i | 30 <= i < 35
      ensures 0 <= ReverseTet35[i] < 35 && ReverseTet35[ReverseTet35[i]] == i && (4 <= i ==> 4 <= ReverseTet35[i])
    {
      assert i == 30 || i == 31 || i == 32 || i == 33 || i == 34;
    }
  }

  // ---------------------------------------------------------------------
  // node layout

  /** The E nodes of edge `i`, from the edge's tail to its head. */
  function EdgeNodes(vs: seq<Vertex>, e: nat, i: nat): seq<Vertex>
    requires (i + 1) * e <= |vs|
  {
    vs[i * e..(i + 1) * e]
  }

  /** The F interior nodes of face `f`, after the 6E edge nodes. */
  function FaceNodes(vs: seq<Vertex>, e: nat, n: nat, f: nat): seq<Vertex>
    requires 6 * e + (f + 1) * n <= |vs|
  {
    vs[6 * e + f * n..6 * e + (f + 1) * n]
  }

  /** Position `k` of a face's `n` corners or interior nodes after the face
      is traversed the other way round from the same first node. */
  function Turn(n: nat, k: nat): nat
    requires k < n
  {
    (n - k) % n
  }

  /** A face's corners or interior nodes, traversed the other way round. */
  function Turned(s: seq<Vertex>): (r: seq<Vertex>)
    ensures |r| == |s|
  {
    seq(|s|, k requires 0 <= k < |s| => s[Turn(|s|, k)])
  }

  // ---------------------------------------------------------------------
  // revert

  /** `revert` swaps corners 1 and 2. */
  function SwapCorners(v: Corners): Corners {
    [v[0], v[2], v[1], v[3]]
  }

  /** `_vs` permuted by a reversal table: new node `i` is old node
      `T[i + 4]`, both counted with the corners. */
  function Permuted(vs: seq<Vertex>, T: seq<int>): (r: seq<Vertex>)
    requires |T| == |vs| + 4 && MapsNodes(T)
    ensures |r| == |vs|
  {
    seq(|vs|, i requires 0 <= i < |vs| => vs[T[i + 4] - 4])
  }

  /** The result of `revert`: the element, and whether it reported that the
      type cannot be reverted. */
  datatype Reverted = Reverted(tet: TetN, error: bool)

  /** `MTetrahedronN::revert`, with `T34` as the table for TET_34. The corners
      are swapped first, whatever the type; the other nodes are permuted by
      the type's table, or left alone with an error for any other type. */
  function RevertNUsing(t: TetN, T34: seq<int>): (r: Reverted)
    requires |T34| == 34 && IsReversal(T34)
    ensures r.tet.v == SwapCorners(t.v) && r.tet.order == t.order && |r.tet.vs| == |t.vs|
    ensures r.error <==> TypeForMsh(t) !in {Tet20, Tet34, Tet35}
    ensures r.error ==> r.tet.vs == t.vs
  {
    ReverseTet20IsReversal();
    ReverseTet35IsReversal();
    var v := SwapCorners(t.v);
    match TypeForMsh(t)
    case Tet20 => Reverted(TetN(v, Permuted(t.vs, ReverseTet20), t.order), false)
    case Tet35 => Reverted(TetN(v, Permuted(t.vs, ReverseTet35), t.order), false)
    case Tet34 => Reverted(TetN(v, Permuted(t.vs, T34), t.order), false)
    case _ => Reverted(TetN(v, t.vs, t.order), true)
  }

  /** `MTetrahedronN::revert` with the corrected `reverseTet34`. */
  function RevertN(t: TetN): (r: Reverted)
    ensures r.tet.v == SwapCorners(t.v) && r.tet.order == t.order && |r.tet.vs| == |t.vs|
    ensures r.error <==> TypeForMsh(t) !in {Tet20, Tet34, Tet35}
  {
    ReverseTet34IsReversal();
    RevertNUsing(t, ReverseTet34)
  }

  /** `MTetrahedronN::revert` with `reverseTet34` as written. */
  function RevertNAsWritten(t: TetN): (r: Reverted)
    ensures r.tet.v == SwapCorners(t.v) && r.tet.order == t.order && |r.tet.vs| == |t.vs|
    ensures r.error <==> TypeForMsh(t) !in {Tet20, Tet34, Tet35}
  {
    ReverseTet34AsWrittenIsReversal();
    RevertNUsing(t, ReverseTet34AsWritten)
  }

  /** The table that reverts `t`, if its type has one. */
  function TableFor(t: TetN, T34: seq<int>): seq<int> {
    match TypeForMsh(t)
    case Tet20 => ReverseTet20
    case Tet35 => ReverseTet35
    case _ => T34
  }

  /** Permuting by an involution twice restores the nodes. */
  lemma PermutedTwice(vs: seq<Vertex>, T: seq<int>)
    requires |T| == |vs| + 4 && IsReversal(T)
    ensures Permuted(Permuted(vs, T), T) == vs
  {
    var w := Permuted(vs, T);
    forall i | 0 <= i < |vs|
      ensures Permuted(w, T)[i] == vs[i]
    {
      assert 4 <= T[i + 4];
      assert T[T[i + 4] - 4 + 4] == i + 4;
    }
  }

  /** Reverting twice gives the element back, whatever its type, and with
      either table for TET_34. */
  lemma RevertTwice(t: TetN, T34: seq<int>)
    requires |T34| == 34 && IsReversal(T34)
    ensures RevertNUsing(RevertNUsing(t, T34).tet, T34).tet == t
  {
    var r := RevertNUsing(t, T34).tet;
    assert TypeForMsh(r) == TypeForMsh(t);
    ReverseTet20IsReversal();
    ReverseTet35IsReversal();
    if TypeForMsh(t) in {Tet20, Tet34, Tet35} {
      PermutedTwice(t.vs, TableFor(t, T34));
    }
  }

  /** `revert` is an involution. */
  lemma RevertNTwice(t: TetN)
    ensures RevertN(RevertN(t).tet).tet == t
  {
    ReverseTet34IsReversal();
    RevertTwice(t, ReverseTet34);
  }

  /** Which original edge each edge of the reverted element is: swapping
      corners 1 and 2 turns edges 0, 1, 2 around and swaps edges 4 and 5. */
  const RevertedEdge: seq<nat> := [2, 1, 0, 3, 5, 4]

  /** Edge `i` of the reverted element runs against its original edge. */
  predicate EdgeTurned(i: nat) {
    i < 3
  }

  /** Which original face each face of the reverted element is. */
  const RevertedFaceN: seq<nat> := [0, 2, 1, 3]

  /** Where node `k` of edge `i` sits, counting the corners. */
  function EdgeSlot(e: nat, i: nat, k: nat): nat {
    4 + i * e + k
  }

  /** Where interior node `k` of face `f` sits, counting the corners. */
  function FaceSlot(e: nat, n: nat, f: nat, k: nat): nat {
    4 + 6 * e + f * n + k
  }

  /** The edge part of a reversal table for E nodes per edge: new edge node
      `k` of edge `i` is old node `k` of the edge `RevertedEdge[i]`, counted
      from the other end when the edge is turned. */
  ghost predicate MovesEdgeNodes(T: seq<int>, e: nat)
    requires |T| >= 4 + 6 * e
  {
    forall i, k :: 0 <= i < 6 && 0 <= k < e ==>
      T[EdgeSlot(e, i, k)] == EdgeSlot(e, RevertedEdge[i], if EdgeTurned(i) then e - 1 - k else k)
  }

  /** The face part of a reversal table: new interior node `k` of face `f` is
      old interior node `Turn(n, k)` of face `RevertedFaceN[f]`. */
  ghost predicate MovesFaceNodes(T: seq<int>, e: nat, n: nat)
    requires |T| >= 4 + 6 * e + 4 * n
  {
    forall f, k :: 0 <= f < 4 && 0 <= k < n ==>
      T[FaceSlot(e, n, f, k)] == FaceSlot(e, n, RevertedFaceN[f], Turn(n, k))
  }

  lemma ReverseTet20MovesEdgeNodes()
    ensures |ReverseTet20| == 20 && MovesEdgeNodes(ReverseTet20, 2)
  {
    forall i, k | 0 <= i < 6 && 0 <= k < 2
      ensures ReverseTet20[EdgeSlot(2, i, k)] == EdgeSlot(2, RevertedEdge[i], if EdgeTurned(i) then 2 - 1 - k else k)
    {
      assert i == 0 || i == 1 || i == 2 || i == 3 || i == 4 || i == 5;
      assert k == 0 || k == 1;
    }
  }

  lemma ReverseTet20MovesFaceNodes()
    ensures |ReverseTet20| == 20 && MovesFaceNodes(ReverseTet20, 2, 1)
  {
    forall f, k | 0 <= f < 4 && 0 <= k < 1
      ensures ReverseTet20[FaceSlot(2, 1, f, k)] == FaceSlot(2, 1, RevertedFaceN[f], Turn(1, k))
    {
      assert f == 0 || f == 1 || f == 2 || f == 3;
      assert k == 0;
    }
  }

  lemma ReverseTet35MovesEdgeNodes()
    ensures |ReverseTet35| == 35 && MovesEdgeNodes(ReverseTet35, 3)
  {
    forall i, k | 0 <= i < 6 && 0 <= k < 3
      ensures ReverseTet35[EdgeSlot(3, i, k)] == EdgeSlot(3, RevertedEdge[i], if EdgeTurned(i) then 3 - 1 - k else k)
    {
      assert i == 0 || i == 1 || i == 2 || i == 3 || i == 4 || i == 5;
      assert k == 0 || k == 1 || k == 2;
    }
  }

  lemma ReverseTet35MovesFaceNodes()
    ensures |ReverseTet35| == 35 && MovesFaceNodes(ReverseTet35, 3, 3)
  {
    forall f, k | 0 <= f < 4 && 0 <= k < 3
      ensures ReverseTet35[FaceSlot(3, 3, f, k)] == FaceSlot(3, 3, RevertedFaceN[f], Turn(3, k))
    {
      assert f == 0 || f == 1 || f == 2 || f == 3;
      assert k == 0 || k == 1 || k == 2;
    }
  }

  lemma ReverseTet34MovesEdgeNodes()
    ensures |ReverseTet34| == 34 && MovesEdgeNodes(ReverseTet34, 3)
  {
    forall i, k | 0 <= i < 6 && 0 <= k < 3
      ensures ReverseTet34[EdgeSlot(3, i, k)] == EdgeSlot(3, RevertedEdge[i], if EdgeTurned(i) then 3 - 1 - k else k)
    {
      assert i == 0 || i == 1 || i == 2 || i == 3 || i == 4 || i == 5;
      assert k == 0 || k == 1 || k == 2;
    }
  }

  lemma ReverseTet34MovesFaceNodes()
    ensures |ReverseTet34| == 34 && MovesFaceNodes(ReverseTet34, 3, 3)
  {
    forall f, k | 0 <= f < 4 && 0 <= k < 3
      ensures ReverseTet34[FaceSlot(3, 3, f, k)] == FaceSlot(3, 3, RevertedFaceN[f], Turn(3, k))
    {
      assert f == 0 || f == 1 || f == 2 || f == 3;
      assert k == 0 || k == 1 || k == 2;
    }
  }

  /** The table as written moves the edge nodes as the corrected one does. */
  lemma ReverseTet34AsWrittenMovesEdgeNodes()
    ensures |ReverseTet34AsWritten| == 34 && MovesEdgeNodes(ReverseTet34AsWritten, 3)
  {
    ReverseTet34Corrected();
    ReverseTet34MovesEdgeNodes();
  }

  /** The table as written does not turn the nodes of face 1 around, while
      it does turn the face's corners (`RevertCornersFollow`). */
  lemma ReverseTet34AsWrittenKeepsFaceNodes()
    ensures |ReverseTet34AsWritten| == 34 && !MovesFaceNodes(ReverseTet34AsWritten, 3, 3)
  {
    assert ReverseTet34AsWritten[FaceSlot(3, 3, 1, 1)] != FaceSlot(3, 3, RevertedFaceN[1], Turn(3, 1));
  }

  /** Swapping corners 1 and 2 turns edges 0..2 around and maps edge `i` to
      edge `RevertedEdge[i]`, and each face `f` to face `RevertedFaceN[f]`
      traversed the other way. */
  lemma RevertCornersFollow(v: Corners)
    ensures forall i :: 0 <= i < 6 ==>
      EdgeVertices(SwapCorners(v), i) == if EdgeTurned(i) then Reverse(EdgeVertices(v, RevertedEdge[i])) else EdgeVertices(v, RevertedEdge[i])
    ensures forall f :: 0 <= f < 4 ==> FaceVertices(SwapCorners(v), f) == Turned(FaceVertices(v, RevertedFaceN[f]))
  {
    forall i | 0 <= i < 6
      ensures EdgeVertices(SwapCorners(v), i) == if EdgeTurned(i) then Reverse(EdgeVertices(v, RevertedEdge[i])) else EdgeVertices(v, RevertedEdge[i])
    {
      assert i == 0 || i == 1 || i == 2 || i == 3 || i == 4 || i == 5;
    }
    forall f | 0 <= f < 4
      ensures FaceVertices(SwapCorners(v), f) == Turned(FaceVertices(v, RevertedFaceN[f]))
    {
      var p, q := FaceVertices(SwapCorners(v), f), Turned(FaceVertices(v, RevertedFaceN[f]));
      assert f == 0 || f == 1 || f == 2 || f == 3;
      assert p[0] == q[0] && p[1] == q[1] && p[2] == q[2];
    }
  }

  /** Block `i` of `e` entries ends at `(i + 1) * e`, within `m` blocks. */
  lemma BlockEnd(i: nat, e: nat, m: nat)
    requires i < m
    ensures (i + 1) * e == i * e + e && (i + 1) * e <= m * e
  {
  }

  /** The table entry for node `m` of the block that starts at node `a` of
      `_vs`. */
  function Entry(T: seq<int>, a: nat, m: nat): int
    requires 4 + a + m < |T|
  {
    T[4 + a + m]
  }

  /** A table that sends the block of `e` nodes at `a` to the block at `b`,
      back to front when `turned`, moves the nodes of that block there. */
  lemma PermutedBlock(vs: seq<Vertex>, T: seq<int>, a: nat, b: nat, e: nat, turned: bool)
    requires |T| == |vs| + 4 && MapsNodes(T) && a + e <= |vs| && b + e <= |vs|
    requires forall m :: 0 <= m < e ==> Entry(T, a, m) == b + 4 + (if turned then e - 1 - m else m)
    ensures Permuted(vs, T)[a..a + e] == if turned then Reverse(vs[b..b + e]) else vs[b..b + e]
  {
    var moved := Permuted(vs, T)[a..a + e];
    forall m | 0 <= m < e
      ensures moved[m] == if turned then Reverse(vs[b..b + e])[m] else vs[b..b + e][m]
    {
      assert Entry(T, a, m) == T[4 + a + m];
    }
  }

  /** A table that sends the block of `n` nodes at `a` to the block at `b`
      turned around moves the nodes of that block there. */
  lemma PermutedTurnedBlock(vs: seq<Vertex>, T: seq<int>, a: nat, b: nat, n: nat)
    requires |T| == |vs| + 4 && MapsNodes(T) && a + n <= |vs| && b + n <= |vs|
    requires forall m :: 0 <= m < n ==> Entry(T, a, m) == b + 4 + Turn(n, m)
    ensures Permuted(vs, T)[a..a + n] == Turned(vs[b..b + n])
  {
    var moved := Permuted(vs, T)[a..a + n];
    forall m | 0 <= m < n
      ensures moved[m] == Turned(vs[b..b + n])[m]
    {
      assert Entry(T, a, m) == T[4 + a + m];
      assert Turned(vs[b..b + n])[m] == vs[b + Turn(n, m)];
    }
  }

  /** A table that moves edge nodes as `MovesEdgeNodes` says carries each
      edge's nodes to the matching edge of the reverted element. */
  lemma PermutedEdgeNodes(vs: seq<Vertex>, T: seq<int>, e: nat, i: nat)
    requires |T| == |vs| + 4 && MapsNodes(T) && 6 * e <= |vs| && MovesEdgeNodes(T, e) && i < 6
    ensures (i + 1) * e <= |vs| && (RevertedEdge[i] + 1) * e <= |vs|
    ensures EdgeNodes(Permuted(vs, T), e, i)
         == if EdgeTurned(i) then Reverse(EdgeNodes(vs, e, RevertedEdge[i])) else EdgeNodes(vs, e, RevertedEdge[i])
  {
    var j := RevertedEdge[i];
    BlockEnd(i, e, 6);
    BlockEnd(j, e, 6);
    forall m | 0 <= m < e
      ensures Entry(T, i * e, m) == j * e + 4 + (if EdgeTurned(i) then e - 1 - m else m)
    {
      assert T[EdgeSlot(e, i, m)] == EdgeSlot(e, j, if EdgeTurned(i) then e - 1 - m else m);
    }
    var a, b := i * e, j * e;
    PermutedBlock(vs, T, a, b, e, EdgeTurned(i));
    assert EdgeNodes(Permuted(vs, T), e, i) == Permuted(vs, T)[a..a + e];
    assert EdgeNodes(vs, e, j) == vs[b..b + e];
  }

  /** A table that moves face nodes as `MovesFaceNodes` says carries each
      face's interior nodes to the matching face, turned around. */
  lemma PermutedFaceNodes(vs: seq<Vertex>, T: seq<int>, e: nat, n: nat, f: nat)
    requires |T| == |vs| + 4 && MapsNodes(T) && 6 * e + 4 * n <= |vs| && MovesFaceNodes(T, e, n) && f < 4
    ensures 6 * e + (f + 1) * n <= |vs| && 6 * e + (RevertedFaceN[f] + 1) * n <= |vs|
    ensures FaceNodes(Permuted(vs, T), e, n, f) == Turned(FaceNodes(vs, e, n, RevertedFaceN[f]))
  {
    var g := RevertedFaceN[f];
    BlockEnd(f, n, 4);
    BlockEnd(g, n, 4);
    var a, b := 6 * e + f * n, 6 * e + g * n;
    forall m | 0 <= m < n
      ensures Entry(T, a, m) == b + 4 + Turn(n, m)
    {
      assert T[FaceSlot(e, n, f, m)] == FaceSlot(e, n, g, Turn(n, m));
    }
    PermutedTurnedBlock(vs, T, a, b, n);
    assert FaceNodes(Permuted(vs, T), e, n, f) == Permuted(vs, T)[a..a + n];
    assert FaceNodes(vs, e, n, g) == vs[b..b + n];
  }

  /** The node counts of the types `revert` handles, and the tables' layout
      facts for them. */
  lemma RevertibleLayout(t: TetN, T34: seq<int>)
    requires TypeForMsh(t) in {Tet20, Tet34, Tet35}
    requires |T34| == 34 && IsReversal(T34) && MovesEdgeNodes(T34, 3)
    ensures t.order - 1 >= 0 && 6 * (t.order - 1) + 4 * FaceInterior(t.order) <= |t.vs|
    ensures |TableFor(t, T34)| == |t.vs| + 4 && IsReversal(TableFor(t, T34))
    ensures MovesEdgeNodes(TableFor(t, T34), t.order - 1)
  {
    ReverseTet20IsReversal();
    ReverseTet35IsReversal();
    ReverseTet20MovesEdgeNodes();
    ReverseTet35MovesEdgeNodes();
    assert FaceInterior(3) == 1 && FaceInterior(4) == 3;
  }

  /** After `revert`, edge `i` joins the corners of original edge
      `RevertedEdge[i]` and carries its nodes, both listed from the other end
      when the edge is turned around. */
  lemma RevertNKeepsEdgeNodes(t: TetN, i: nat)
    requires TypeForMsh(t) in {Tet20, Tet34, Tet35} && i < 6
    ensures var e, r, j := t.order - 1, RevertN(t).tet, RevertedEdge[i];
      && e >= 0 && 6 * e <= |t.vs| && j < 6
      && EdgeVertices(r.v, i) == (if EdgeTurned(i) then Reverse(EdgeVertices(t.v, j)) else EdgeVertices(t.v, j))
      && EdgeNodes(r.vs, e, i) == (if EdgeTurned(i) then Reverse(EdgeNodes(t.vs, e, j)) else EdgeNodes(t.vs, e, j))
  {
    ReverseTet34IsReversal();
    ReverseTet34MovesEdgeNodes();
    RevertibleLayout(t, ReverseTet34);
    RevertCornersFollow(t.v);
    assert RevertN(t).tet.vs == Permuted(t.vs, TableFor(t, ReverseTet34));
    PermutedEdgeNodes(t.vs, TableFor(t, ReverseTet34), t.order - 1, i);
  }

  /** After `revert`, face `f` is original face `RevertedFaceN[f]` traversed
      the other way: its corners and its interior nodes are the original
      face's, turned around. */
  lemma RevertNTurnsFaces(t: TetN, f: nat)
    requires TypeForMsh(t) in {Tet20, Tet34, Tet35} && f < 4
    ensures var e, n, r, g := t.order - 1, FaceInterior(t.order), RevertN(t).tet, RevertedFaceN[f];
      && e >= 0 && 6 * e + 4 * n <= |t.vs| && g < 4
      && FaceVertices(r.v, f) == Turned(FaceVertices(t.v, g))
      && FaceNodes(r.vs, e, n, f) == Turned(FaceNodes(t.vs, e, n, g))
  {
    ReverseTet34IsReversal();
    ReverseTet34MovesEdgeNodes();
    RevertibleLayout(t, ReverseTet34);
    RevertCornersFollow(t.v);
    var T := TableFor(t, ReverseTet34);
    assert RevertN(t).tet.vs == Permuted(t.vs, T);
    assert MovesFaceNodes(T, t.order - 1, FaceInterior(t.order)) by {
      ReverseTet20MovesFaceNodes();
      ReverseTet34MovesFaceNodes();
      ReverseTet35MovesFaceNodes();
    }
    PermutedFaceNodes(t.vs, T, t.order - 1, FaceInterior(t.order), f);
  }

  /** With `reverseTet34` as written, a reverted TET_34 has face 1 turned
      around but its interior nodes not: here they come out as `24, 25, 26`
      where the turned face would give `24, 26, 25`. */
  lemma RevertNAsWrittenKeepsFaceNodes()
    ensures var t := TetN([0, 1, 2, 3], seq(30, i => i), 4);
      && TypeForMsh(t) == Tet34
      && FaceVertices(RevertNAsWritten(t).tet.v, 1) == Turned(FaceVertices(t.v, RevertedFaceN[1]))
      && FaceNodes(RevertNAsWritten(t).tet.vs, 3, 3, 1) != Turned(FaceNodes(t.vs, 3, 3, RevertedFaceN[1]))
  {
    var t := TetN([0, 1, 2, 3], seq(30, i => i), 4);
    RevertCornersFollow(t.v);
    ReverseTet34AsWrittenIsReversal();
    var r := RevertNAsWritten(t).tet;
    assert r.vs == Permuted(t.vs, ReverseTet34AsWritten);
    assert FaceNodes(r.vs, 3, 3, 1)[1] == 25;
    assert Turned(FaceNodes(t.vs, 3, 3, 2))[1] == 26;
  }

  // ---------------------------------------------------------------------
  // getEdgeVertices, getFaceVertices

  /** `MTetrahedronN::getEdgeVertices(num, v)`: `v` resized to `order + 1`,
      the corners of edge `num`, then its nodes `_vs[num*E .. (num+1)*E)`. */
  method EdgeVerticesN(t: TetN, num: nat) returns (v: seq<Vertex>)
    requires num < 6 && t.order >= 1 && (num + 1) * (t.order - 1) <= |t.vs|
    ensures |v| == t.order + 1
    ensures v == EdgeVertices(t.v, num) + EdgeNodes(t.vs, t.order - 1, num)
  {
    var e := t.order - 1;
    BlockEnd(num, e, num + 1);
    v := Resize(EdgeVertices(t.v, num), t.order + 1);
    var j := 2;
    var i := num * e;
    var ie := (num + 1) * e;
    while i != ie
      invariant num * e <= i <= ie && j == 2 + i - num * e && |v| == t.order + 1
      invariant v[..j] == EdgeVertices(t.v, num) + t.vs[num * e..i]
      decreases ie - i
    {
      v := v[j := t.vs[i]];
      assert v[..j + 1] == v[..j] + [t.vs[i]];
      assert t.vs[num * e..i + 1] == t.vs[num * e..i] + [t.vs[i]];
      j := j + 1;
      i := i + 1;
    }
    assert v == v[..j];
  }

  /** In the node layout, every edge's nodes are within `_vs`. */
  lemma EdgeNodesInLayout(t: TetN, num: nat)
    requires num < 6 && t.order >= 1 && 6 * (t.order - 1) <= |t.vs|
    ensures (num + 1) * (t.order - 1) <= |t.vs|
  {
    BlockEnd(num, t.order - 1, 6);
  }

  /** `n` null entries, as `std::vector::resize` appends them. */
  function Nulls(n: nat): (r: seq<Vertex>)
    ensures |r| == n && forall k :: 0 <= k < n ==> r[k] == NullVertex
  {
    seq(n, _ => NullVertex)
  }

  /** What `MTetrahedronN::getFaceVertices(num, v)` leaves in a fresh `v`:
      the face's corners, the F nodes `_vs[num*F .. (num+1)*F)`, and the
      remaining `3 * (order - 1)` slots of the resized vector still null. */
  function FaceListAsWritten(t: TetN, num: nat): (r: seq<Vertex>)
    requires num < 4 && t.order >= 1 && (num + 1) * FaceInterior(t.order) <= |t.vs|
    ensures |r| == 3 + 3 * (t.order - 1) + FaceInterior(t.order)
  {
    var n := FaceInterior(t.order);
    BlockEnd(num, n, num + 1);
    FaceVertices(t.v, num) + t.vs[num * n..(num + 1) * n] + Nulls(3 * (t.order - 1))
  }

  /** `MTetrahedronN::getFaceVertices(num, v)` as written, with its loop. */
  method FaceVerticesNAsWritten(t: TetN, num: nat) returns (v: seq<Vertex>)
    requires num < 4 && t.order >= 1 && (num + 1) * FaceInterior(t.order) <= |t.vs|
    ensures v == FaceListAsWritten(t, num)
  {
    var n := FaceInterior(t.order);
    BlockEnd(num, n, num + 1);
    v := Resize(FaceVertices(t.v, num), 3 + 3 * (t.order - 1) + n);
    var j := 3;
    var i := num * n;
    var ie := (num + 1) * n;
    while i != ie
      invariant num * n <= i <= ie && j == 3 + i - num * n && |v| == 3 + 3 * (t.order - 1) + n
      invariant v[..j] == FaceVertices(t.v, num) + t.vs[num * n..i]
      invariant forall k :: j <= k < |v| ==> v[k] == NullVertex
      decreases ie - i
    {
      v := v[j := t.vs[i]];
      assert v[..j + 1] == v[..j] + [t.vs[i]];
      assert t.vs[num * n..i + 1] == t.vs[num * n..i] + [t.vs[i]];
      j := j + 1;
      i := i + 1;
    }
    assert v == v[..j] + v[j..];
    assert v[j..] == Nulls(3 * (t.order - 1));
  }

  /** The nodes of side `j` of face `f`, from the side's first corner to its
      second: the nodes of the edge it runs along, reversed when the edge
      runs the other way. */
  function SideNodes(vs: seq<Vertex>, e: nat, f: nat, j: nat): (r: seq<Vertex>)
    requires f < 4 && j < 3 && 6 * e <= |vs|
    ensures |r| == e
  {
    FacesOmitOneCorner();
    var edge := EdgeBetween(Side(f, j).0, Side(f, j).1);
    BlockEnd(edge.0, e, 6);
    if edge.1 then Reverse(EdgeNodes(vs, e, edge.0)) else EdgeNodes(vs, e, edge.0)
  }

  /** `MTetrahedronN::getFaceVertices(num, v)` filling the slots its resize
      makes: the face's corners, the nodes of its three sides in the face's
      order, then its F interior nodes `_vs[6E + num*F ..]`. */
  function FaceVerticesN(t: TetN, num: nat): (r: seq<Vertex>)
    requires num < 4 && t.order >= 1 && 6 * (t.order - 1) + 4 * FaceInterior(t.order) <= |t.vs|
    ensures |r| == 3 + 3 * (t.order - 1) + FaceInterior(t.order)
    ensures r[..3] == FaceVertices(t.v, num)
  {
    var e, n := t.order - 1, FaceInterior(t.order);
    BlockEnd(num, n, 4);
    FaceVertices(t.v, num) + SideNodes(t.vs, e, num, 0) + SideNodes(t.vs, e, num, 1) + SideNodes(t.vs, e, num, 2)
      + FaceNodes(t.vs, e, n, num)
  }

  /** For the orders `getTypeForMSH` knows, every node the loop of
      `getFaceVertices` as written reads lies among the edge nodes `_vs[..6E)`,
      never among the face's interior nodes, and the slots for the side
      nodes stay null. */
  lemma FaceListAsWrittenReadsEdgeNodes(t: TetN, num: nat)
    requires num < 4 && 3 <= t.order <= 5
    ensures (num + 1) * FaceInterior(t.order) <= 6 * (t.order - 1)
    ensures (num + 1) * FaceInterior(t.order) <= |t.vs| ==>
      forall k :: 3 + FaceInterior(t.order) <= k < |FaceListAsWritten(t, num)| ==> FaceListAsWritten(t, num)[k] == NullVertex
  {
    assert FaceInterior(3) == 1 && FaceInterior(4) == 3 && FaceInterior(5) == 6;
    BlockEnd(num, FaceInterior(t.order), 4);
  }

  /** A TET_20 with nodes 100..115: face 1 as written lists node 101 (an edge
      node) and six nulls; with the side and interior nodes filled in it
      lists the nodes of edges 0, 5 and 3 and interior node 113. */
  lemma FaceListAsWrittenExample()
    ensures var t := TetN([0, 1, 2, 3], seq(16, i => 100 + i), 3);
      && TypeForMsh(t) == Tet20
      && FaceListAsWritten(t, 1) == [0, 1, 3, 101, -1, -1, -1, -1, -1, -1]
      && FaceVerticesN(t, 1) == [0, 1, 3, 100, 101, 111, 110, 106, 107, 113]
  {
    var t := TetN([0, 1, 2, 3], seq(16, i => 100 + i), 3);
    assert FaceInterior(3) == 1;
    assert SideNodes(t.vs, 2, 1, 0) == [100, 101];
    assert SideNodes(t.vs, 2, 1, 1) == Reverse([110, 111]) == [111, 110];
    assert SideNodes(t.vs, 2, 1, 2) == [106, 107];
  }

  /** Node `k` of edge `i` in the layout. */
  function EdgeNode(vs: seq<Vertex>, e: nat, i: nat, k: nat): Vertex
    requires i < 6 && k < e && 6 * e <= |vs|
  {
    BlockEnd(i, e, 6);
    EdgeNodes(vs, e, i)[k]
  }

  /** The edges lying on face `f` (both ends among its corners) are the
      three it runs along. */
  lemma EdgesOfFace(f: nat, i: nat)
    requires f < 4 && i < 6
    ensures EdgeEnds(i) <= FaceSet(f) <==> i == SideEdge(f, 0) || i == SideEdge(f, 1) || i == SideEdge(f, 2)
  {
    FacesOmitOneCorner();
    assert f == 0 || f == 1 || f == 2 || f == 3;
    assert i == 0 || i == 1 || i == 2 || i == 3 || i == 4 || i == 5;
  }

  /** The nodes of a side are the nodes of the edge it runs along. */
  lemma SideNodesOfEdge(vs: seq<Vertex>, e: nat, f: nat, j: nat, x: Vertex)
    requires f < 4 && j < 3 && 6 * e <= |vs|
    ensures x in SideNodes(vs, e, f, j) <==> exists k :: 0 <= k < e && x == EdgeNode(vs, e, SideEdge(f, j), k)
  {
    FacesOmitOneCorner();
    var i := SideEdge(f, j);
    BlockEnd(i, e, 6);
    var s := SideNodes(vs, e, f, j);
    if x in s {
      var m :| 0 <= m < e && s[m] == x;
      var k := if EdgeBetween(Side(f, j).0, Side(f, j).1).1 then e - 1 - m else m;
      assert x == EdgeNode(vs, e, i, k);
    }
    if exists k :: 0 <= k < e && x == EdgeNode(vs, e, i, k) {
      var k :| 0 <= k < e && x == EdgeNode(vs, e, i, k);
      var m := if EdgeBetween(Side(f, j).0, Side(f, j).1).1 then e - 1 - k else k;
      assert s[m] == x;
    }
  }

  /** Everything that lies on face `f`: its corners, the nodes of the edges
      with both ends among its corners, and its interior nodes. */
  ghost predicate OnFace(t: TetN, f: nat, x: Vertex)
    requires f < 4 && t.order >= 1 && 6 * (t.order - 1) + 4 * FaceInterior(t.order) <= |t.vs|
  {
    var e, n := t.order - 1, FaceInterior(t.order);
    BlockEnd(f, n, 4);
    || CornerOfFace(t.v, f, x)
    || NodeOfFaceEdge(t.vs, e, f, x)
    || x in FaceNodes(t.vs, e, n, f)
  }

  ghost predicate CornerOfFace(v: Corners, f: nat, x: Vertex)
    requires f < 4
  {
    exists c :: c in FaceSet(f) && 0 <= c < 4 && x == v[c]
  }

  ghost predicate NodeOfFaceEdge(vs: seq<Vertex>, e: nat, f: nat, x: Vertex)
    requires f < 4 && 6 * e <= |vs|
  {
    exists i, k :: 0 <= i < 6 && EdgeEnds(i) <= FaceSet(f) && 0 <= k < e && x == EdgeNode(vs, e, i, k)
  }

  /** The corners `getFaceVertices` lists are the corners in the face. */
  lemma CornersOfFace(v: Corners, f: nat, x: Vertex)
    requires f < 4
    ensures x in FaceVertices(v, f) <==> CornerOfFace(v, f, x)
  {
    FacesOmitOneCorner();
    var c := FaceVertices(v, f);
    if x in c {
      var j :| 0 <= j < 3 && c[j] == x;
      assert Faces[f][j] in FaceSet(f);
    }
    if CornerOfFace(v, f, x) {
      var q :| q in FaceSet(f) && 0 <= q < 4 && x == v[q];
      assert q == Faces[f][0] || q == Faces[f][1] || q == Faces[f][2];
    }
  }

  /** The side nodes listed are the nodes of the edges lying on the face. */
  lemma SidesOfFace(vs: seq<Vertex>, e: nat, f: nat, x: Vertex)
    requires f < 4 && 6 * e <= |vs|
    ensures (x in SideNodes(vs, e, f, 0) || x in SideNodes(vs, e, f, 1) || x in SideNodes(vs, e, f, 2))
        <==> NodeOfFaceEdge(vs, e, f, x)
  {
    SideNodesOfEdge(vs, e, f, 0, x);
    SideNodesOfEdge(vs, e, f, 1, x);
    SideNodesOfEdge(vs, e, f, 2, x);
    if NodeOfFaceEdge(vs, e, f, x) {
      var i, k :| 0 <= i < 6 && EdgeEnds(i) <= FaceSet(f) && 0 <= k < e && x == EdgeNode(vs, e, i, k);
      EdgesOfFace(f, i);
    }
    forall j | 0 <= j < 3
      ensures SideEdge(f, j) < 6 && EdgeEnds(SideEdge(f, j)) <= FaceSet(f)
    {
      EdgesOfFace(f, SideEdge(f, j));
    }
  }

  /** The corrected `getFaceVertices` lists exactly the vertices that lie on
      the face. */
  lemma FaceVerticesNListsFace(t: TetN, f: nat, x: Vertex)
    requires f < 4 && t.order >= 1 && 6 * (t.order - 1) + 4 * FaceInterior(t.order) <= |t.vs|
    ensures x in FaceVerticesN(t, f) <==> OnFace(t, f, x)
  {
    var e, n := t.order - 1, FaceInterior(t.order);
    BlockEnd(f, n, 4);
    var s0, s1, s2 := SideNodes(t.vs, e, f, 0), SideNodes(t.vs, e, f, 1), SideNodes(t.vs, e, f, 2);
    assert FaceVerticesN(t, f) == FaceVertices(t.v, f) + s0 + s1 + s2 + FaceNodes(t.vs, e, n, f);
    CornersOfFace(t.v, f, x);
    SidesOfFace(t.vs, e, f, x);
  }

  /** The `MElement` view of an `MTetrahedronN` laid out with all its edge and
      face nodes: `ElemChain(e)` sees the corners, `getVertex` every node. */
  function TetNElement(t: TetN): (e: MeshElement)
    requires t.order >= 1 && 6 * (t.order - 1) + 4 * FaceInterior(t.order) <= |t.vs|
    ensures e.dim == 3 && e.cellType == Tet && e.verts == t.v && |e.nodes| == NumVertices(t)
    ensures |e.edgeVerts| == 6 && |e.faceVerts| == 4
  {
    var e := t.order - 1;
    MeshElement(3, Tet, t.v, t.v + t.vs,
      seq(6, i requires 0 <= i < 6 => BlockEnd(i, e, 6); EdgeVertices(t.v, i) + EdgeNodes(t.vs, e, i)),
      seq(4, f requires 0 <= f < 4 => FaceVerticesN(t, f)))
  }

  /** Resizing to the length of a prefix keeps just the prefix. */
  lemma ResizeToPrefix(x: seq<Vertex>, y: seq<Vertex>)
    ensures Resize(x + y, |x|) == x && Resize(x, |x|) == x
  {
  }

  /** A chain's coefficient of an edge or face of a high-order tetrahedron
      depends on the corners only: it is the coefficient of the same edge or
      face of the first-order tetrahedron. */
  lemma TetNCoefficientSeesCorners(o: Orientation, c: Chain, t: TetN, i: nat)
    requires t.order >= 1 && 6 * (t.order - 1) + 4 * FaceInterior(t.order) <= |t.vs|
    requires c.dim == 1 || c.dim == 2
    ensures CoefficientOfElement(o, c, TetNElement(t), i) == CoefficientOfElement(o, c, TetElement(t.v), i)
  {
    var hi, lo := TetNElement(t), TetElement(t.v);
    assert SubEntity(hi, c.dim, i) == SubEntity(lo, c.dim, i) by {
      if c.dim == 1 && i < 6 {
        BlockEnd(i, t.order - 1, 6);
        ResizeToPrefix(EdgeVertices(t.v, i), EdgeNodes(t.vs, t.order - 1, i));
      } else if c.dim == 2 && i < 4 {
        var r := FaceVerticesN(t, i);
        assert r == r[..3] + r[3..];
        ResizeToPrefix(r[..3], r[3..]);
      }
    }
  }
}
