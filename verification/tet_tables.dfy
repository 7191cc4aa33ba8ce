/** The reference tetrahedron of Geo/MTetrahedron.h: its corners are 0..3,
    `edges_tetra` names the six edges by their (tail, head) corners and
    `faces_tetra` the four faces by their three corners in cyclic order. */
module TetTables {

  /** `edges_tetra(e, 0)` and `edges_tetra(e, 1)` for `e` in 0..5. */
  const Edges: seq<seq<int>> := [[0, 1], [1, 2], [2, 0], [3, 0], [3, 2], [3, 1]]

  /** `faces_tetra(f, 0..2)` for `f` in 0..3. */
  const Faces: seq<seq<int>> := [[0, 2, 1], [0, 1, 3], [0, 3, 2], [3, 1, 2]]

  predicate IsCorner(a: int) {
    0 <= a < 4
  }

  /** The corners edge `e` joins, as a set. */
  function EdgeEnds(e: nat): set<int>
    requires e < 6
  {
    {Edges[e][0], Edges[e][1]}
  }

  /** Each edge joins two distinct corners. */
  lemma EdgesJoinCorners()
    ensures |Edges| == 6
    ensures forall e :: 0 <= e < 6 ==> |Edges[e]| == 2 && IsCorner(Edges[e][0]) && IsCorner(Edges[e][1])
    ensures forall e :: 0 <= e < 6 ==> Edges[e][0] != Edges[e][1]
  {
  }

  /** No two edges join the same pair of corners. */
  lemma EdgesDistinct(e1: nat, e2: nat)
    requires e1 < 6 && e2 < 6 && e1 != e2
    ensures EdgeEnds(e1) != EdgeEnds(e2)
  {
  }

  /** Which edge joins corners `a` and `b`, as a table. */
  const PairEdge: seq<seq<int>> := [[-1, 0, 2, 3], [0, -1, 1, 5], [2, 1, -1, 4], [3, 5, 4, -1]]

  /** The edge joining two distinct corners, and whether it runs from `b`
      to `a` rather than from `a` to `b`. */
  function EdgeBetween(a: int, b: int): (r: (nat, bool))
    requires IsCorner(a) && IsCorner(b) && a != b
    ensures r.0 < 6
    ensures !r.1 ==> Edges[r.0] == [a, b]
    ensures r.1 ==> Edges[r.0] == [b, a]
  {
    var e := PairEdge[a][b];
    assert 0 <= e < 6 && (Edges[e] == [a, b] || Edges[e] == [b, a]) by {
      assert a == 0 || a == 1 || a == 2 || a == 3;
      assert b == 0 || b == 1 || b == 2 || b == 3;
    }
    (e, Edges[e] != [a, b])
  }

  /** Every pair of distinct corners is joined by exactly one edge. */
  lemma EveryPairOnce(a: int, b: int)
    requires IsCorner(a) && IsCorner(b) && a != b
    ensures exists e :: 0 <= e < 6 && EdgeEnds(e) == {a, b}
    ensures forall e1, e2 :: 0 <= e1 < 6 && 0 <= e2 < 6 && EdgeEnds(e1) == {a, b} && EdgeEnds(e2) == {a, b} ==> e1 == e2
  {
    var e := EdgeBetween(a, b).0;
    assert EdgeEnds(e) == {a, b};
    forall e1, e2 | 0 <= e1 < 6 && 0 <= e2 < 6 && EdgeEnds(e1) == {a, b} && EdgeEnds(e2) == {a, b}
      ensures e1 == e2
    {
      if e1 != e2 {
        EdgesDistinct(e1, e2);
      }
    }
  }

  /** The corners face `f` holds, as a set. */
  function FaceSet(f: nat): set<int>
    requires f < 4
  {
    {Faces[f][0], Faces[f][1], Faces[f][2]}
  }

  /** Each face holds three distinct corners and omits corner `3 - f`, so the
      four faces omit four different corners. */
  lemma FacesOmitOneCorner()
    ensures |Faces| == 4
    ensures forall f :: 0 <= f < 4 ==> |Faces[f]| == 3
    ensures forall f, j :: 0 <= f < 4 && 0 <= j < 3 ==> IsCorner(Faces[f][j])
    ensures forall f :: 0 <= f < 4 ==> Faces[f][0] != Faces[f][1] && Faces[f][1] != Faces[f][2] && Faces[f][2] != Faces[f][0]
    ensures forall f :: 0 <= f < 4 ==> FaceSet(f) == {0, 1, 2, 3} - {3 - f}
  {
  }

  /** The `j`-th side of face `f`, directed along the face's cycle. */
  function Side(f: nat, j: nat): (int, int)
    requires f < 4 && j < 3
  {
    (Faces[f][j], Faces[f][(j + 1) % 3])
  }

  /** How many of the sides `n..11` (side `n % 3` of face `n / 3`) run from
      `a` to `b`. */
  function CountSides(a: int, b: int, n: nat): nat
    requires n <= 12
    decreases 12 - n
  {
    if n == 12 then 0
    else (if Side(n / 3, n % 3) == (a, b) then 1 else 0) + CountSides(a, b, n + 1)
  }

  /** The twelve face sides are the twelve ordered pairs of distinct corners,
      each exactly once. */
  lemma EveryDirectedPairOnce(a: int, b: int)
    requires IsCorner(a) && IsCorner(b) && a != b
    ensures CountSides(a, b, 0) == 1
  {
    if b == 0 {
      DirectedPairsInto0(a);
    } else if b == 1 {
      DirectedPairsInto1(a);
    } else if b == 2 {
      DirectedPairsInto2(a);
    } else {
      DirectedPairsInto3(a);
    }
  }

  lemma DirectedPairsInto0(a: int)
    requires a == 1 || a == 2 || a == 3
    ensures CountSides(a, 0, 0) == 1
  {
  }

  lemma DirectedPairsInto1(a: int)
    requires a == 0 || a == 2 || a == 3
    ensures CountSides(a, 1, 0) == 1
  {
  }

  lemma DirectedPairsInto2(a: int)
    requires a == 0 || a == 1 || a == 3
    ensures CountSides(a, 2, 0) == 1
  {
  }

  lemma DirectedPairsInto3(a: int)
    requires a == 0 || a == 1 || a == 2
    ensures CountSides(a, 3, 0) == 1
  {
  }

  /** A face never holds a side in both directions. */
  lemma SidesOfOneFace(f: nat, j: nat, k: nat)
    requires f < 4 && j < 3 && k < 3
    ensures Side(f, k) != (Side(f, j).1, Side(f, j).0)
  {
    FacesOmitOneCorner();
  }

  /** The faces are consistently oriented: every side of a face occurs
      reversed as a side of exactly one other face. */
  lemma SidesReversedElsewhere(f: nat, j: nat)
    requires f < 4 && j < 3
    ensures CountSides(Side(f, j).1, Side(f, j).0, 0) == 1
    ensures forall k :: 0 <= k < 3 ==> Side(f, k) != (Side(f, j).1, Side(f, j).0)
  {
    FacesOmitOneCorner();
    EveryDirectedPairOnce(Side(f, j).1, Side(f, j).0);
    forall k | 0 <= k < 3
      ensures Side(f, k) != (Side(f, j).1, Side(f, j).0)
    {
      SidesOfOneFace(f, j, k);
    }
  }

  /** The sign side `n` contributes to edge `e`: +1 along it, -1 against it. */
  function SideSign(e: nat, n: nat): int
    requires e < 6 && n < 12
  {
    var s := Side(n / 3, n % 3);
    if s == (Edges[e][0], Edges[e][1]) then 1
    else if s == (Edges[e][1], Edges[e][0]) then -1
    else 0
  }

  function SumSideSigns(e: nat, n: nat): int
    requires e < 6 && n <= 12
    decreases 12 - n
  {
    if n == 12 then 0 else SideSign(e, n) + SumSideSigns(e, n + 1)
  }

  lemma {:induction false} SumSideSignsCounts(e: nat, n: nat)
    requires e < 6 && n <= 12
    ensures SumSideSigns(e, n) == CountSides(Edges[e][0], Edges[e][1], n) - CountSides(Edges[e][1], Edges[e][0], n)
    decreases 12 - n
  {
    if n < 12 {
      SumSideSignsCounts(e, n + 1);
    }
  }

  /** The boundary of the boundary of the reference tetrahedron vanishes:
      the signed sides of its four faces cancel on every edge. */
  lemma FaceSidesCancel(e: nat)
    requires e < 6
    ensures SumSideSigns(e, 0) == 0
  {
    EdgesJoinCorners();
    SumSideSignsCounts(e, 0);
    EveryDirectedPairOnce(Edges[e][0], Edges[e][1]);
    EveryDirectedPairOnce(Edges[e][1], Edges[e][0]);
  }
}
