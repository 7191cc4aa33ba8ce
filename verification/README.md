# Chains, tetrahedra and disk faces of gmsh, in Dafny

This project models three pieces of gmsh's geometry code and proves what they compute.

- **Chain algebra** (Geo/Chain.h). A `Chain<C>` is a sparse formal sum of elementary chains (oriented mesh cells), all of one dimension. It is kept as a map from each cell's identity (its sorted vertex tuple) to the stored reference cell and a nonzero integer coefficient. The model covers:
  - `addElemChain`, `operator+=`, `operator*=` and the operators `VectorSpaceCat` derives from them;
  - both forms of `getCoefficient`;
  - the free functions `incidence` and `boundary<C>`;
  - `getBoundary` and `getTrace(entities)`;
  - the comparison operators `PosetCat` derives from `lessThan`.

  The cell's own methods enter as parameters of the operations that call them:
  - `compareOrientation` is a function `o` obeying sign laws;
  - `getBoundaryElemChain` is a facet function;
  - `inEntity` is a membership predicate.

  The iteration order of `std::map` is left open. Each loop over a map is a fold that takes its entries in an unspecified order, and the results are proved for every order.
- **Tetrahedra** (Geo/MTetrahedron.h). The model covers:
  - the reference edge and face tables;
  - `revert` for the 4-node, 10-node and high-order tetrahedron, with the tables `reverseTet20`, `reverseTet34` and `reverseTet35`;
  - the node-count functions and `getTypeForMSH`;
  - `getEdgeVertices` and `getFaceVertices`;
  - the view of a tetrahedron that `getCoefficient(e, subElement)` takes.
- **Boundary of a tetrahedron** (Geo/Chain.h with the tables of Geo/MTetrahedron.h). A tetrahedron's facets are taken to be its `faces_tetra` faces, and a triangle's facets its three sides. Under these assumptions, applying `getBoundary` twice to the chain of one tetrahedron gives the zero chain.
- **Disk faces** (Geo/discreteDiskFace.cpp). The model covers:
  - the constructor's copy of the triangles onto the face's own vertices;
  - `buildAllNodes`;
  - `getBoundingEdges`: the boundary edges found by toggling a set, chained through the `firstNode2Edge` successor map into loops, and the longest loop selected.

Vertices are integers in the chain and tetrahedron models, with -1 standing for a null pointer. In the disk-face model a vertex is of any type with equality.

## Model

| member | source | states |
|---|---|---|
| Poset.Greater | Geo/Chain.h:43-46 | `>` is exactly the negation of `lessThan`, not a strict order |
| Poset.NotEqual | Geo/Chain.h:51-54 | `!=` is exactly the negation of `==` |
| Poset.StrictOrderHasNoEqualPair | Geo/Chain.h:47-54 | under an asymmetric `lessThan`, `==` holds of no pair (not even a value and itself) and `!=` of every pair |
| Poset.StrictOrderDerivedOperators | Geo/Chain.h:39-64 | under an asymmetric `lessThan`, `<=` coincides with `<`, `>=` with `>`, and `t > t` holds |
| Poset.LessGreaterExclusive | Geo/Chain.h:39-46 | exactly one of `<` and `>` holds of any pair |
| Chains.AddElem | Geo/Chain.h:414-429 | a zero coefficient or a clashing dimension changes nothing; the first accepted add fixes `_dim`; only the generator's own entry changes; a new generator is stored verbatim as the reference; no zero coefficient is ever stored |
| Chains.Coefficient | Geo/Chain.h:272-279 | zero for an absent generator; for a valid chain, nonzero exactly when the generator is present |
| Chains.SubEntity | Geo/Chain.h:288-307 | the vertex, edge or face list of a sub-entity, `None` when the index is out of range; edges are resized to 2 vertices, faces to 3 for a tetrahedron (and the first faces of a prism or pyramid) and 4 otherwise |
| Chains.CoefficientOfElement | Geo/Chain.h:281-310 | the element itself when the dimensions agree; 0 for `subElement == -1` or an index out of range; otherwise the coefficient of the sub-entity's vertex list |
| Chains.Scale | Geo/Chain.h:440-449 | `*= 0` empties the terms but keeps `_dim`; a nonzero scalar keeps the keys and multiplies every coefficient |
| Chains.Negate | Geo/Chain.h:111-113 | unary `-` negates the operand itself and returns it; a nonempty chain is changed |
| Chains.ScalarInverse | Geo/Chain.h:100-103 | `1./s` converted to an integer is an inverse of `s` for ±1 and 0 otherwise |
| Chains.Divide | Geo/Chain.h:100-103 | dividing by ±2 or more empties the chain; dividing by 1 changes nothing |
| Chains.Incidence | Geo/Chain.h:312-327 | zero across dimensions |
| Chains.FacetSign | Geo/Chain.h:333-336 | -1 exactly for facet 0 of a 1-cell, +1 for every other facet |
| Chains.InDomain | Geo/Chain.h:395-401 | true exactly when some listed entity contains the generator |
| Chains.Boundary | Geo/Chain.h:341-352 | the boundary is a valid chain |
| Chains.Plus | Geo/Chain.h:82-86 | `a + b` of a valid `a` is valid and keeps `a`'s name |
| Chains.Minus | Geo/Chain.h:87-91 | `a - b` of a valid `a` is valid |
| Chains.AddTerms | Geo/Chain.h:431-438 | the loop of `+=` keeps the chain valid and its name unchanged |
| Chains.ElemBoundary | Geo/Chain.h:329-339 | `boundary<C>(g)` is a valid chain without a name |
| Chains.AddFacets | Geo/Chain.h:333-337 | the loop of `boundary<C>` keeps the chain valid and its name unchanged |
| Chains.AddBoundaries | Geo/Chain.h:345-348 | the loop of `getBoundary` keeps the chain valid and its name unchanged |
| Chains.Trace | Geo/Chain.h:390-405 | `getTrace(entities)` is a valid chain |
| Chains.TraceTerms | Geo/Chain.h:394-403 | the loop of `getTrace` keeps the chain valid and its name unchanged |
| ChainLaws.CoefficientOfStored | Geo/Chain.h:272-279 | a stored generator reads back its stored coefficient |
| ChainLaws.ZeroCoefficientsMeanNoTerms | Geo/Chain.h:424-428 | a valid chain whose every coefficient is zero has no entries |
| ChainLaws.AddElemCoefficient | Geo/Chain.h:414-429 | `addElemChain(g, coeff)` adds `coeff` to the coefficient of every generator with the same identity as `g` and changes no other |
| ChainLaws.AddTermsCoefficient | Geo/Chain.h:431-438 | the loop of `+=` adds the coefficients of the added entries, in any order |
| ChainLaws.PlusCoefficient | Geo/Chain.h:431-438 | `a += b` adds coefficients |
| ChainLaws.PlusRefused | Geo/Chain.h:418-422 | adding a chain of another dimension leaves the chain unchanged |
| ChainLaws.AddElemIsMerge | Geo/Chain.h:414-429 | `addElemChain` equals an order-free merge of one entry |
| ChainLaws.MergeDisjoint | Geo/Chain.h:431-438 | merging disjoint batches one after the other is merging their union |
| ChainLaws.AddTermsIsMerge | Geo/Chain.h:431-438 | the loop of `+=` computes the merge whatever order it takes the entries in |
| ChainLaws.PlusIsMerge | Geo/Chain.h:82-86 | `a + b` equals its order-free reference definition |
| ChainLaws.ScaleCoefficient | Geo/Chain.h:440-449 | `*= s` multiplies every coefficient by `s` |
| ChainLaws.ScaleByOne | Geo/Chain.h:440-449 | scaling by 1 changes nothing |
| ChainLaws.ScaleTwice | Geo/Chain.h:92-99 | `t * (s * c) == (t * s) * c` exactly |
| ChainLaws.NegateCancels | Geo/Chain.h:111-113 | `c + (-c)` is the zero chain |
| ChainLaws.MinusCoefficient | Geo/Chain.h:87-91 | `a - b` subtracts coefficients |
| ChainLaws.PlusCommutes | Geo/Chain.h:82-86 | `a + b` and `b + a` have the same generators and coefficients |
| ChainLaws.SameCoefficientsSameKeys | Geo/Chain.h:272-279 | valid chains with equal coefficients hold the same generators |
| ChainLaws.PlusAssociates | Geo/Chain.h:82-86 | `(a + b) + c` and `a + (b + c)` have equal coefficients |
| ChainLaws.PlusZero | Geo/Chain.h:189 | the zero chain is a unit for `+` |
| ChainLaws.PairingViaGen | Geo/Chain.h:317-320 | each summand of `incidence` is the product of the two chains' coefficients |
| ChainLaws.PairingAdditive | Geo/Chain.h:317-320 | each summand is additive in the first chain |
| ChainLaws.IncidenceAdditive | Geo/Chain.h:312-327 | `incidence` is additive in its first argument |
| ChainLaws.IncidenceHomogeneous | Geo/Chain.h:312-327 | `incidence` is homogeneous in its first argument |
| ChainLaws.IncidenceSymmetric | Geo/Chain.h:312-327 | `incidence` is symmetric |
| ChainLaws.IncidenceWithGenerator | Geo/Chain.h:312-327 | pairing with a single generator reads its coefficient |
| ChainLaws.AddFacetsCoefficient | Geo/Chain.h:333-337 | the loop of `boundary<C>` adds the signed facet contributions |
| ChainLaws.ElemBoundaryCoefficient | Geo/Chain.h:329-339 | `boundary<C>(g)` gives each cell the signed count of facets of `g` with its identity; its dimension is one lower |
| ChainLaws.ScaledBoundaryFits | Geo/Chain.h:345-348 | one step of `getBoundary` adds the scaled elementary boundary's coefficients |
| ChainLaws.AddBoundariesCoefficient | Geo/Chain.h:345-348 | the loop of `getBoundary` sums the scaled boundaries, in any order |
| ChainLaws.BoundaryCoefficient | Geo/Chain.h:341-352 | `getBoundary` gives each cell the sum over the chain's entries of coefficient times elementary boundary coefficient; dimension one lower |
| ChainLaws.TraceTermsIsRestrict | Geo/Chain.h:394-403 | the loop of `getTrace` keeps exactly the entries inside the domain, in any order |
| ChainLaws.TraceIsRestrict | Geo/Chain.h:390-405 | `getTrace(entities)` is the restriction of the entries to generators in some listed entity, coefficients unchanged |
| ChainLaws.TraceIdempotent | Geo/Chain.h:390-405 | taking the trace twice gives the trace |
| ChainLaws.TraceCoefficient | Geo/Chain.h:390-405 | the trace's coefficient is the chain's inside the domain and 0 outside |
| TetTables.EdgesJoinCorners | Geo/MTetrahedron.h:144-155 | six edges, each joining two distinct corners in 0..3 |
| TetTables.EdgesDistinct | Geo/MTetrahedron.h:144-155 | no two edges join the same pair of corners |
| TetTables.EdgeBetween | Geo/MTetrahedron.h:144-155 | the edge joining two distinct corners, with its direction |
| TetTables.EveryPairOnce | Geo/MTetrahedron.h:144-155 | every pair of distinct corners is joined by exactly one edge |
| TetTables.FacesOmitOneCorner | Geo/MTetrahedron.h:156-165 | There are four faces, each made of three distinct corners in 0..3, and face `f` leaves out corner `3 - f`. |
| TetTables.EveryDirectedPairOnce | Geo/MTetrahedron.h:156-165 | the twelve face sides are the twelve ordered corner pairs, each once |
| TetTables.SidesOfOneFace | Geo/MTetrahedron.h:156-165 | no face holds a side in both directions |
| TetTables.SidesReversedElsewhere | Geo/MTetrahedron.h:156-165 | every face side occurs reversed in exactly one other face |
| TetTables.FaceSidesCancel | Geo/MTetrahedron.h:144-165 | along each edge, as many face sides run with the edge as against it; TetBoundary.BoundaryOfBoundary uses this to show that `getBoundary` twice gives zero |
| Tetrahedra.EdgeVertices | Geo/MTetrahedron.h:37-41 | the corners of edge `num`, tail first as `edges_tetra` lists them; two different vertices when the corners are distinct |
| Tetrahedra.FaceVertices | Geo/MTetrahedron.h:42-47 | the corners of face `num` in `faces_tetra` order; for distinct corners, three different vertices, none of them corner `3 - num` |
| Tetrahedra.Revert | Geo/MTetrahedron.h:111-114 | corners 0 and 1 trade places, corners 2 and 3 stay |
| Tetrahedra.RevertPermutes | Geo/MTetrahedron.h:111-114 | `revert` permutes the corners, so distinct corners stay distinct |
| Tetrahedra.RevertInvolution | Geo/MTetrahedron.h:111-114 | `revert` twice restores the corners |
| Tetrahedra.RevertFlipsFaces | Geo/MTetrahedron.h:111-114 | every face of the reverted tetrahedron is an original face with the opposite orientation |
| Tetrahedra.Revert10 | Geo/MTetrahedron.h:261-267 | the corners are reverted as by `MTetrahedron::revert`; the nodes of edges 0 and 4, which that swap maps onto themselves, stay |
| Tetrahedra.EdgeVertices10 | Geo/MTetrahedron.h:234-240 | the edge's two corners, tail first, then the node on that same edge |
| Tetrahedra.Revert10Involution | Geo/MTetrahedron.h:261-267 | `MTetrahedron10::revert` twice restores the element |
| Tetrahedra.Revert10Permutes | Geo/MTetrahedron.h:261-267 | `revert` only permutes the corners and the mid-edge nodes |
| Tetrahedra.Revert10KeepsNodesOnEdges | Geo/MTetrahedron.h:261-267 | after `revert` every mid-edge node sits on the edge joining the same two corners as before |
| Tetrahedra.FaceVertices10AsWritten | Geo/MTetrahedron.h:241-254 | the face's corners, then reads of `_vs` at node numbers 4..9, `None` past the six entries |
| Tetrahedra.FaceVertices10AsWrittenOutOfBounds | Geo/MTetrahedron.h:241-254 | every face reads past the end of `_vs` |
| Tetrahedra.FaceVertices10 | Geo/MTetrahedron.h:241-254 | the face's corners first, then three mid-edge nodes |
| Tetrahedra.FaceVertices10ListsSideNodes | Geo/MTetrahedron.h:245-253 | the mid-edge nodes listed are exactly those of the face's three sides |
| Tetrahedra.TetFaceCoefficient | Geo/Chain.h:299-309 | in a 2-chain, face `i` of a tetrahedron has the coefficient of its corner triple, 0 past face 3 |
| Tetrahedra.TetEdgeCoefficient | Geo/Chain.h:294-298 | in a 1-chain, edge `i` has the coefficient of its corner pair, 0 past edge 5 |
| TetHighOrder.FaceInterior | Geo/MTetrahedron.h:369-372 | twice the face-interior count is `(order - 1)(order - 2)` |
| TetHighOrder.NumFaceVertices | Geo/MTetrahedron.h:369-372 | `getNumFaceVertices()` is four times the interior-node count of one face |
| TetHighOrder.TypeForMsh | Geo/MTetrahedron.h:398-407 | each type exactly for its (order, vertex count) pair |
| TetHighOrder.NumVolumeVertices | Geo/MTetrahedron.h:390-397 | volume nodes exist exactly for TET_35 and TET_56 |
| TetHighOrder.VertexCountsAddUp | Geo/MTetrahedron.h:366-407 | for every recognised type, corners + edge + face + volume nodes = `getNumVertices()` |
| TetHighOrder.ReverseTet34Corrected | Geo/MTetrahedron.h:319-343 | the corrected `reverseTet34` is `reverseTet35` without the volume node; the table as written differs from it only at the entries of faces 1 and 2 |
| TetHighOrder.ReversalIsPermutation | Geo/MTetrahedron.h:307-343 | a reversal table has no repeated entry |
| TetHighOrder.ReverseTet20IsReversal | Geo/MTetrahedron.h:307-317 | an involution of 0..19 swapping corners 1 and 2 and mapping nodes to nodes |
| TetHighOrder.ReverseTet35IsReversal | Geo/MTetrahedron.h:319-331 | the same for 0..34 |
| TetHighOrder.ReverseTet34IsReversal | Geo/MTetrahedron.h:333-343 | the same for the corrected table on 0..33 |
| TetHighOrder.ReverseTet34AsWrittenIsReversal | Geo/MTetrahedron.h:333-343 | the table as written is an involution too |
| TetHighOrder.RevertNUsing | Geo/MTetrahedron.h:408-441 | corners 1 and 2 always swap; the nodes are permuted for TET_20/34/35; any other type reports an error and keeps its nodes |
| TetHighOrder.RevertN | Geo/MTetrahedron.h:408-441 | corners 1 and 2 swap, the order and node count are kept, and an error is reported exactly for types other than TET_20, TET_34 and TET_35 |
| TetHighOrder.RevertNAsWritten | Geo/MTetrahedron.h:408-441 | the same, with `reverseTet34` as written |
| TetHighOrder.RevertTwice | Geo/MTetrahedron.h:408-441 | reverting twice restores the element, for every type |
| TetHighOrder.RevertNTwice | Geo/MTetrahedron.h:408-441 | `revert` is an involution |
| TetHighOrder.ReverseTet20MovesEdgeNodes | Geo/MTetrahedron.h:308-313 | the table sends each edge's nodes to those of the edge the corner swap maps it to, reversed along edges 0..2 |
| TetHighOrder.ReverseTet20MovesFaceNodes | Geo/MTetrahedron.h:314-317 | the table sends each face's node to that of the face the corner swap maps it to |
| TetHighOrder.ReverseTet35MovesEdgeNodes | Geo/MTetrahedron.h:321-326 | the same for the edge nodes of TET_35 |
| TetHighOrder.ReverseTet35MovesFaceNodes | Geo/MTetrahedron.h:327-330 | each face's nodes go to the mapped face, traversed the other way round |
| TetHighOrder.ReverseTet34MovesEdgeNodes | Geo/MTetrahedron.h:334-339 | the same for the corrected TET_34 table |
| TetHighOrder.ReverseTet34MovesFaceNodes | Geo/MTetrahedron.h:340-343 | the same for the corrected TET_34 table |
| TetHighOrder.ReverseTet34AsWrittenMovesEdgeNodes | Geo/MTetrahedron.h:334-339 | the table as written moves edge nodes correctly |
| TetHighOrder.ReverseTet34AsWrittenKeepsFaceNodes | Geo/MTetrahedron.h:341-342 | the table as written does not turn the nodes of faces 1 and 2 |
| TetHighOrder.RevertCornersFollow | Geo/MTetrahedron.h:410-411 | swapping corners 1 and 2 maps each edge to another (reversed for edges 0..2) and each face to another, traversed backwards |
| TetHighOrder.PermutedEdgeNodes | Geo/MTetrahedron.h:414-431 | a table that moves edge nodes carries each edge's node block to its image |
| TetHighOrder.PermutedFaceNodes | Geo/MTetrahedron.h:414-431 | a table that moves face nodes carries each face's node block to its image, turned |
| TetHighOrder.RevertibleLayout | Geo/MTetrahedron.h:408-433 | the types `revert` handles have the layout its tables assume |
| TetHighOrder.RevertNKeepsEdgeNodes | Geo/MTetrahedron.h:408-433 | after `revert`, edge `i` joins the corners of its original edge and carries that edge's nodes, in the edge's direction |
| TetHighOrder.RevertNTurnsFaces | Geo/MTetrahedron.h:408-433 | after `revert`, each face is an original face traversed backwards, corners and interior nodes alike |
| TetHighOrder.RevertNAsWrittenKeepsFaceNodes | Geo/MTetrahedron.h:428-432 | with the table as written, a reverted TET_34 has face 1's corners turned but its interior nodes not |
| TetHighOrder.EdgeVerticesN | Geo/MTetrahedron.h:373-380 | `order + 1` vertices: the edge's corners, then its E nodes from the layout |
| TetHighOrder.EdgeNodesInLayout | Geo/MTetrahedron.h:373-380 | for the recognised types every edge's nodes lie inside `_vs` |
| TetHighOrder.FaceListAsWritten | Geo/MTetrahedron.h:381-389 | the list has the length the resize sets: 3 corners, `3 * (order - 1)` side slots and the face's interior nodes |
| TetHighOrder.FaceVerticesNAsWritten | Geo/MTetrahedron.h:381-389 | the loop of `getFaceVertices` as written produces that list |
| TetHighOrder.FaceListAsWrittenReadsEdgeNodes | Geo/MTetrahedron.h:381-389 | for orders 3..5 every node read lies in the edge-node block, and the side slots stay null |
| TetHighOrder.FaceListAsWrittenExample | Geo/MTetrahedron.h:381-389 | a TET_20 whose face 1 lists an edge node and six nulls as written, its side and interior nodes corrected |
| TetHighOrder.FaceVerticesN | Geo/MTetrahedron.h:381-389 | the face's corners first, with the length the resize sets |
| TetHighOrder.EdgesOfFace | Geo/MTetrahedron.h:144-165 | the edges lying on a face are its three sides |
| TetHighOrder.SideNodesOfEdge | Geo/MTetrahedron.h:381-389 | a side's nodes are those of the edge it runs along |
| TetHighOrder.CornersOfFace | Geo/MTetrahedron.h:42-47 | the listed corners are the face's corners |
| TetHighOrder.SidesOfFace | Geo/MTetrahedron.h:381-389 | the listed side nodes are the nodes of the edges lying on the face |
| TetHighOrder.FaceVerticesNListsFace | Geo/MTetrahedron.h:381-389 | the corrected list holds exactly the vertices lying on the face |
| TetHighOrder.TetNCoefficientSeesCorners | Geo/Chain.h:294-306 | for edges and faces a high-order tetrahedron has the coefficients of its corners alone, since the resize keeps only the corners |
| DiskFaces.CopyVertex | Geo/discreteDiskFace.cpp:105-115 | a vertex on the face becomes its one copy (made on first sight), others are kept; the copies stay inverse to `v2v` |
| DiskFaces.CopyTriangle | Geo/discreteDiskFace.cpp:103-117 | the three corners of a triangle become their images |
| DiskFaces.CopyMesh | Geo/discreteDiskFace.cpp:101-119 | one triangle per input triangle; each vertex on the face is replaced by its copy, the others are kept; the copies have no duplicates and are exactly the face's vertices |
| DiskFaces.CopyKeepsIdentity | Geo/discreteDiskFace.cpp:101-119 | two corners of the copied mesh are equal exactly when the original corners are |
| DiskFaces.AllNodes | Geo/discreteDiskFace.cpp:526-537 | `allNodes` is exactly the set of the triangles' vertices |
| DiskFaces.CopiedNodes | Geo/discreteDiskFace.cpp:101-119 | the copied mesh's nodes are the vertices off the face plus every copy |
| DiskFaces.ToggleParity | Geo/discreteDiskFace.cpp:137-147 | a vertex pair is in `allEdges` exactly when an odd number of triangle edges join it; the stored edge is one of them |
| DiskFaces.SharedEdgeIsInner | Geo/discreteDiskFace.cpp:137-147 | an edge shared by exactly two triangles is not a boundary edge |
| DiskFaces.BoundaryEdges | Geo/discreteDiskFace.cpp:137-147 | the toggle loop computes the parity set |
| DiskFaces.FirstNodeMap | Geo/discreteDiskFace.cpp:149-160 | `None` exactly when two boundary edges share their first vertex; otherwise one entry per edge, first vertex to last |
| DiskFaces.DistinctCount | Geo/discreteDiskFace.cpp:162-177 | a walk without repeats has as many vertices as its set |
| DiskFaces.WalkOne | Geo/discreteDiskFace.cpp:164-175 | the inner walk starts at the chosen vertex, follows successors, repeats nothing, removes at least one entry, partitions the remaining map, and stops at a vertex whose successor has no entry left |
| DiskFaces.WalkLoops | Geo/discreteDiskFace.cpp:162-177 | every loop is nonempty and follows successors; every first vertex lands in exactly one loop; each loop stops at a vertex whose successor is in no later loop; the loops hold as many vertices as there are boundary edges |
| DiskFaces.WalkDeterminedByStarts | Geo/discreteDiskFace.cpp:162-177 | two walks over the same successor map whose loops start at the same vertices are equal, so the stop condition fixes every loop |
| DiskFaces.InsertLoopsKeepsFirst | Geo/discreteDiskFace.cpp:176 | the lengths are the keys of `_loops`, each holding the first loop of that length |
| DiskFaces.LongestLoop | Geo/discreteDiskFace.cpp:180-182 | the entry with the greatest length; `None` for an empty `_loops` |
| DiskFaces.BoundingLoop | Geo/discreteDiskFace.cpp:134-183 | `None` exactly when two boundary edges share a first vertex or there is no boundary; otherwise `_U0` is a loop of a walk over the successor map `firstNode2Edge` with no loop of that walk longer, `_totLength` is its length, and consecutive vertices of `_U0` are joined by stored boundary edges |
| TetBoundary.ElemBoundaryIsFaces | Geo/Chain.h:329-339 | `boundary<C>` of a tetrahedron with distinct corners holds its four `faces_tetra` faces, each with coefficient 1 |
| TetBoundary.TetBoundaryIsFaces | Geo/Chain.h:341-352 | `getBoundary` of the chain holding one such tetrahedron with coefficient `s != 0` holds exactly its four faces, each with coefficient `s` |
| TetBoundary.FacesBoundaryCoefficient | Geo/Chain.h:341-352 | in the boundary of those four faces every cell has `s` times the sum of the orientation-signed terms of the faces' twelve sides |
| TetBoundary.SidesCancel | Geo/MTetrahedron.h:156-165 | those twelve side terms cancel for every cell: on an edge of the tetrahedron one side runs each way, and off the edges every term is zero |
| TetBoundary.BoundaryOfBoundary | Geo/Chain.h:341-352 | `getBoundary` applied twice to the chain holding one tetrahedron with distinct corners, with any coefficient, gives the zero chain |

## Left out

- `addToModel`, the `Chain(GModel*, int)` constructor and the `getTrace` overloads that resolve physical groups: they call into `GModel` and post-processing views, which are not part of this model.
- `addMeshElement`: it builds an `ElemChain` from an element, whose constructor is not part of this model. A generator is given directly as a dimension and a vertex list.
- The stringstream `convert` helper and chain names beyond carrying them along.
- The `ElemChain` method bodies and its static vertex cache. `compareOrientation`, `getBoundaryElemChain` and `inEntity` are parameters. The identity key (the sorted `_si` tuple) is the multiset of vertices.
- Coefficients are integers. `Chain<C>` with `C = double` or `std::complex<double>` is not modelled, so `1./s` is modelled by its integer conversion (`Chains.ScalarInverse`).
- The `Msg::Error`, `Msg::Info` and `Msg::Debug` messages. A refused `addElemChain` returns the chain unchanged, and `revert` of an unsupported type returns an error flag.
- Chains.Incidence: its contract only covers the cross-dimension case. The sum itself is stated by the lemmas in ChainLaws.
- Chains.Incidence: for `Chain<int>` the sum `incidence += coeff * coeff` (Geo/Chain.h:319) can overflow `int`; the model adds exact integers.
- Chains.AddElem: for `Chain<int>` the update `+= coeff * compareOrientation(...)` (Geo/Chain.h:426) can overflow `int`; the model adds exact integers, so a wrapped sum that happens to be 0 is not modelled.
- Chains.Scale: for `Chain<int>` the product `it->second *= coeff` (Geo/Chain.h:447) can overflow `int`; the model multiplies exactly.
- Chains.CoefficientOfElement: requires `subElement >= -1`. The source takes any `int`, but a value below -1 makes `getVertex`, `getEdgeVertices` or `getFaceVertices` read at a negative index, which has no defined result to model.
- Chains.ScalarInverse: requires `s != 0`. In the source `1./0` is infinite, and converting it to `int` has no defined result.
- Chains.Divide: requires `s != 0`, for the same reason as ScalarInverse.
- Chains.Plus: its contract states validity and the name only. The coefficients are stated by ChainLaws.PlusCoefficient and ChainLaws.PlusIsMerge.
- Chains.Minus: its contract states validity only. The coefficients are stated by ChainLaws.MinusCoefficient.
- Chains.AddTerms: its contract states validity and the name only. The coefficients are stated by ChainLaws.AddTermsCoefficient and ChainLaws.AddTermsIsMerge.
- Chains.ElemBoundary: its contract states validity only. The coefficients are stated by ChainLaws.ElemBoundaryCoefficient.
- Chains.AddFacets: its contract states validity and the name only. The coefficients are stated by ChainLaws.AddFacetsCoefficient.
- Chains.AddBoundaries: its contract states validity and the name only. The coefficients are stated by ChainLaws.AddBoundariesCoefficient.
- Chains.Trace: its contract states validity only. The entries are stated by ChainLaws.TraceIsRestrict and ChainLaws.TraceCoefficient.
- Chains.TraceTerms: its contract states validity and the name only. The entries are stated by ChainLaws.TraceTermsIsRestrict.
- TetBoundary.SimplexFacets stands in for `getBoundaryElemChain` of a simplex. It assumes that a tetrahedron's facets are its faces in `faces_tetra` order, that a triangle's facets are its sides along its cycle, and that an edge's are its two end points. Geo/Chain.cpp is not part of this model.
- TetBoundary.ReversesEdges stands in for `compareOrientation` on edges. It assumes the two directions of an edge between distinct vertices compare as -1. TetBoundary.BoundaryOfBoundary is proved only for orientations with this property.
- Chains.Boundary: its contract states validity only. The coefficients are stated by ChainLaws.BoundaryCoefficient.
- `_order` is a `char` in the source. It is an unbounded integer here, and the arithmetic on it is exact (no overflow of `int`).
- `getFaceVertices` and `getEdgeVertices` write into the caller's vector after a `resize`. The model assumes a fresh, empty vector, so the slots a resize adds are null.
- The MSH type codes are an enumeration. The numeric values of `GmshDefines.h` are not part of this model.
- `isInside`, `getMat`, the volume and quality measures, the rendering representations and the format-specific type strings and vertex maps of the tetrahedra.
- The floating-point geometry of the disk face: the parametrisation, the octree and kd-tree, derivatives, `orderVertices`, `putOnView`. Mesh/sizeField.h is not part of this model.
- The Euclidean edge length in `getBoundingEdges` is a parameter `dist`, summed exactly as a real number. The loop lengths are not rounded.
- `getBoundingEdges` assumes `_loops` is empty on entry. The walk starts each loop at a vertex chosen arbitrarily, not at the smallest pointer `std::map::begin` gives. The same applies to the iteration order of `allEdges`.
- `MTriangle::getEdge(j)` is assumed to run from vertex `j` to vertex `j + 1`. `Less_Edge` is assumed to compare unordered vertex pairs. Neither is part of this model.
- DiskFaces.InsertLoops assumes `_loops` is a `std::map<double, std::vector<MVertex*>>`, whose `insert` keeps the loop already stored under an equal length. Geo/discreteDiskFace.h, which declares it, is not part of this model.
- `Msg::Fatal` in `getBoundingEdges` is modelled as a `None` result.
- `v->onWhat() == gf` is a predicate parameter. A copy `MFaceVertex` is represented by its position in `discrete_vertices`, and the coordinates it copies are left out.

## Findings

| source | as written | input that shows it | evidently intended | confidence | as-written member | corrected member |
|---|---|---|---|---|---|---|
| Geo/MTetrahedron.h:245-253 | `v[3..5] = _vs[f[num][k]]` with table entries 4..9, indexing the six-entry `_vs` | any 10-node tetrahedron, face 0: the entry 6 reads `_vs[6]`, past the end | `_vs[f[num][k] - 4]`, the mid-edge nodes of the face's three sides | high; not executed | Tetrahedra.FaceVertices10AsWritten, Tetrahedra.FaceVertices10AsWrittenOutOfBounds | Tetrahedra.FaceVertices10, Tetrahedra.FaceVertices10ListsSideNodes |
| Geo/MTetrahedron.h:381-389 | the loop copies `_vs[num*nbV .. (num+1)*nbV-1]` into slots 3.. and leaves the other `3*(order-1)` slots null | TET_20 with corners 0..3 and nodes 100..115, face 1: `[0,1,3,101,-1,-1,-1,-1,-1,-1]`, where 101 is a node of edge 0 | corners, then the nodes of the face's three sides, then the face's interior nodes at `6E + num*F` | high; not executed | TetHighOrder.FaceVerticesNAsWritten, TetHighOrder.FaceListAsWrittenExample, TetHighOrder.FaceListAsWrittenReadsEdgeNodes | TetHighOrder.FaceVerticesN, TetHighOrder.FaceVerticesNListsFace |
| Geo/MTetrahedron.h:333-343 | `reverseTet34` maps the interior nodes of faces 1 and 2 as `28,29,30` and `25,26,27`, without turning them as `reverseTet35` does | TET_34 with corners 0..3 and `_vs[i] = i`, face 1 after `revert`: interior nodes `[24,25,26]` (face 2's in their old order) instead of `[24,26,25]` | the face entries of `reverseTet35`: `28,30,29` and `25,27,26` | medium; not executed | TetHighOrder.RevertNAsWritten, TetHighOrder.RevertNAsWrittenKeepsFaceNodes, TetHighOrder.ReverseTet34AsWrittenKeepsFaceNodes | TetHighOrder.RevertN, TetHighOrder.RevertNTurnsFaces |
