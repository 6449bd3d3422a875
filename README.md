# Surface-mesh topology, ordered one-rings and the dual mesh

This project models two connectivity-only parts of CinoLib's surface-mesh code in Dafny, and proves properties about them.

1. **Topology queries of `AbstractSurfaceMesh`** (`surface_mesh.dfy`, module `SurfaceMesh`):
   - the opposite vertex of an edge, and counter-clockwise order inside a face;
   - manifold and boundary tests for edges, faces and vertices;
   - the boundary edges of a vertex;
   - the face shared by two edges, the edge shared by two faces, and the face adjacent along an edge.
2. **The ordered one-ring walk** `vert_ordered_one_ring` and its four projections (`one_ring.dfy`, module `OneRingWalk`). The walk circles a vertex face by face and collects four lists in winding order:
   - the adjacent vertices;
   - the incident faces;
   - the incident edges;
   - the link edges opposite the vertex.
3. **The vector-output `dual_mesh`** (`dual_mesh.dfy`, module `Dual`). It builds the dual vertices of a triangle mesh, the two maps from boundary vertices and boundary edges to their dual vertices, and one dual polygon per admitted primal vertex.

How the model is built:
- **The mesh is a read-only value** (`SurfaceMesh.Mesh`). It holds the edge endpoints, the face vertex cycles and the adjacency lists `adj_f2e`, `adj_v2e`, `adj_e2f` and `adj_f2f`. `WellFormed` states what the queries rely on:
  - edges have two distinct endpoints and are listed at both;
  - faces are cycles of at least three distinct vertices;
  - every edge has at least one incident face, listed once;
  - the lists refer to each other consistently.
- **Contract checks become errors.** The library's assertions (a non-manifold start edge, a boundary vertex without exactly two boundary edges, a start face that fails the winding test, a face without the requested edge, two triangles not sharing exactly two corners) become `Err` outcomes. So do the failing `std::map::at` lookups of `dual_mesh`. The model does not use preconditions for them.
- **The one-ring walk is imperative.** The walk is a method with the original do-while loop and inner sweep loop (`VertOrderedOneRing`, `WalkRound`, `SweepFace`). It is proved equal to the ghost function `OneRingOf`, which runs the same rounds recursively. The properties of the walk are proved about `OneRingOf`.
- **The dual mesh is imperative too.** `DualMesh` runs the source's loops and is proved equal to `DualOf`. `DualOf` is built from a symbolic vertex layout (`Layout`: `Bary(t)`, then `VertPos(v)`, then `Mid(e)`), the slot maps `VertSlots`/`EdgeSlots`, and the cell of every vertex.

Two consequences of the code are easy to get wrong:
- **Ring length at a boundary vertex.** The walk drops the last swept vertex after every face (`pop_back`, meshes/abstract_surface_mesh.cpp:119). So on triangles `|v_ring| == |f_ring|` holds at every vertex, boundary vertices included. A boundary vertex's vertex ring is not one entry longer than its face ring (`OneRingWalk.RingCounts`).
- **Vertices with no edges.** A vertex with no incident edge is not a boundary vertex (dual_mesh.cpp:87). So `dual_mesh` pushes an empty polygon for it, also when clipped cells are not wanted (`Dual.IsolatedVertCell`).

## Model

| member | source | states |
|---|---|---|
| SurfaceMesh.VertsAreOrderedCCW | meshes/abstract_surface_mesh.cpp:49-55 | defined as the offset test `off(curr) == (off(prev)+1) mod n`; `CCWIsSuccession` proves what it means |
| SurfaceMesh.EdgeIsManifold | meshes/abstract_surface_mesh.cpp:227-230 | defined as "at most two incident faces"; `EdgeFaceCounts` relates it to the boundary test |
| SurfaceMesh.EdgeIsBoundary | meshes/abstract_surface_mesh.cpp:236-239 | defined as "fewer than two incident faces"; `EdgeFaceCounts` proves that on a well-formed mesh this means exactly one |
| SurfaceMesh.FaceIsBoundary | meshes/abstract_surface_mesh.cpp:316-319 | defined as "fewer than three listed neighbours"; `FaceWithBoundaryEdge` and `FaceWithInteriorEdges` prove when a triangle is or is not one |
| SurfaceMesh.VertIsBoundary | meshes/abstract_surface_mesh.cpp:206-210 | defined as the early-return scan of `adj_v2e(vid)` for a boundary edge; `AnyWhere` and `VertIsBoundaryIff` prove what it means |
| SurfaceMesh.VertOppositeTo | meshes/abstract_surface_mesh.cpp:38-43 | the result is an endpoint of the edge; together with `vid` it makes up both endpoints; when the endpoints differ, it is not `vid` |
| SurfaceMesh.OffsetOfCorner | meshes/abstract_surface_mesh.cpp:51-52 | in a face with distinct corners, the offset looked up for corner `i` is `i` |
| SurfaceMesh.CCWIsSuccession | meshes/abstract_surface_mesh.cpp:49-55 | the offset test `off(curr) == (off(prev)+1) mod n` holds exactly when `curr` comes right after `prev` somewhere along the face cycle |
| SurfaceMesh.FaceEdgeId | meshes/abstract_surface_mesh.cpp:116 | a found edge is one of the face's edges and contains both vertices; nothing is found only when no edge of the face joins them |
| SurfaceMesh.EdgeFaceCounts | meshes/abstract_surface_mesh.cpp:227-239 | on a well-formed mesh: a boundary edge is manifold; boundary iff exactly one incident face; manifold and not boundary iff exactly two |
| SurfaceMesh.BoundaryEdgesIn | meshes/abstract_surface_mesh.cpp:219 | an edge is in the result iff it is in the scanned list and is a boundary edge; the result is no longer than the list |
| SurfaceMesh.BoundaryEdgesInSingle | meshes/abstract_surface_mesh.cpp:219 | a one-edge list keeps its edge, once, exactly when it is a boundary edge |
| SurfaceMesh.BoundaryEdgesInConcat | meshes/abstract_surface_mesh.cpp:218-220 | filtering a concatenation gives the concatenation of the filtered parts; with `BoundaryEdgesInSingle` this fixes both the order and the multiplicity of the result |
| SurfaceMesh.BoundaryEdgesInSnoc | meshes/abstract_surface_mesh.cpp:218-220 | scanning one more edge appends it when it is a boundary edge and leaves the result unchanged otherwise |
| SurfaceMesh.BoundaryEdgesOf | meshes/abstract_surface_mesh.cpp:216-221 | every returned edge contains `vid` and is a boundary edge; every boundary edge containing `vid` is returned |
| SurfaceMesh.VertBoundaryEdges | meshes/abstract_surface_mesh.cpp:216-221 | the loop returns exactly the boundary edges of `adj_v2e(vid)`, in their order (`BoundaryEdgesOf`) |
| SurfaceMesh.AnyWhere | meshes/abstract_surface_mesh.cpp:208-209 | the early-return scan is true iff some element satisfies the test |
| SurfaceMesh.VertIsBoundaryIff | meshes/abstract_surface_mesh.cpp:206-210 | a vertex is on the boundary iff its list of boundary edges is non-empty |
| SurfaceMesh.FirstWhere | meshes/abstract_surface_mesh.cpp:283-288 | the early-return scan gives -1 iff no element passes, and otherwise the first element that passes |
| SurfaceMesh.FaceShared | meshes/abstract_surface_mesh.cpp:281-289 | -1 iff the two edges have no common face; otherwise a common face, and the first one in `e0`'s list that `e1` also has |
| SurfaceMesh.EdgesShareFace | meshes/abstract_surface_mesh.cpp:245-253 | true iff `FaceShared` is not -1, iff the two edges have a face in common |
| SurfaceMesh.EdgeShared | meshes/abstract_surface_mesh.cpp:259-275 | succeeds iff exactly two of `f0`'s first three corners lie in `f1`, and then returns those two vertices in `f0`'s order; otherwise fails with the number of shared corners |
| SurfaceMesh.FaceAdjacentAlong | meshes/abstract_surface_mesh.cpp:295-310 | fails iff the face has no edge joining the two vertices or that edge is not manifold; a result other than -1 is a listed neighbour containing both vertices; -1 means no listed neighbour contains both |
| SurfaceMesh.FaceWithBoundaryEdge | meshes/abstract_surface_mesh.cpp:316-319 | a triangle with manifold edges, one of them a boundary edge, has fewer than three neighbours, i.e. is a boundary face |
| SurfaceMesh.FaceWithInteriorEdges | meshes/abstract_surface_mesh.cpp:316-319 | a triangle whose three edges are interior and lead to three different faces is not a boundary face |
| OneRingWalk.VertOrderedOneRing | meshes/abstract_surface_mesh.cpp:61-124 | the imperative walk (clear, start, do-while loop) returns exactly `OneRingOf(m, vid)`, errors included |
| OneRingWalk.OneRingOf | meshes/abstract_surface_mesh.cpp:67-84 | no incident edge gives four empty lists; a non-manifold first edge is an error; boundary edges other than exactly two is an error |
| OneRingWalk.WalkStart | meshes/abstract_surface_mesh.cpp:72-101 | the imperative start-up computes exactly `StartOf` |
| OneRingWalk.StartOf | meshes/abstract_surface_mesh.cpp:73-101 | the start state keeps the walk invariant; a non-manifold first edge is an error; an interior vertex starts at its first edge, a face of it and the vertex opposite; a boundary vertex fails unless it has two boundary edges, and then starts as `BoundaryStart` says |
| OneRingWalk.InteriorStartFace | meshes/abstract_surface_mesh.cpp:73-77 | at an interior vertex with a manifold first edge: the start face is `adj_e2f(e)[0]` whenever that face passes the CCW test from the far end to `vid`; and whenever any face of `e` passes it, the chosen one does too |
| OneRingWalk.WindsAt | meshes/abstract_surface_mesh.cpp:77 | defined as the CCW test in face `f` from the far end of `e` to `vid`, used by `InteriorStartFace` |
| OneRingWalk.BoundaryStart | meshes/abstract_surface_mesh.cpp:82-101 | the start edge is one of the two boundary edges, with its first face and the opposite vertex, which passes the CCW test; the front boundary edge is taken whenever its face passes; it fails exactly when neither boundary edge's face passes |
| OneRingWalk.FrontState | meshes/abstract_surface_mesh.cpp:86-88 | the state built from a boundary edge, its first face and the opposite vertex is a valid start with nothing collected |
| OneRingWalk.SweepFace | meshes/abstract_surface_mesh.cpp:108-114 | the inner loop appends the face's corners from `curr_v` on (all but one) to `v_ring`, and the edges joining consecutive ones to `e_link`; it fails iff such an edge is missing |
| OneRingWalk.LinksJoin | meshes/abstract_surface_mesh.cpp:112 | there is one link edge fewer than swept vertices, and link edge `k` joins swept vertices `k` and `k+1` |
| OneRingWalk.NextFace | meshes/abstract_surface_mesh.cpp:117 | defined as the back face of the edge when its front face is the current one, else the front face; `OtherFace` proves that across an interior manifold edge it is the other face |
| OneRingWalk.Round | meshes/abstract_surface_mesh.cpp:104-121 | defined as one iteration of the do-while body on values; `RoundParts`, `FaceStep` and `StepPreserves` state what it guarantees |
| OneRingWalk.WalkRound | meshes/abstract_surface_mesh.cpp:104-121 | one loop iteration computes exactly `Round` |
| OneRingWalk.RoundParts | meshes/abstract_surface_mesh.cpp:108-119 | a round sweeps `|face|-1` corners starting at `curr_v`, links them, and leaves through a manifold edge of the face joining `vid` to the last swept corner |
| OneRingWalk.FaceStep | meshes/abstract_surface_mesh.cpp:103-122 | a successful round leaves a state ready for the next one and adds one or two edges to `e_ring` |
| OneRingWalk.OtherFace | meshes/abstract_surface_mesh.cpp:117 | across an interior manifold edge the next face differs from the current one |
| OneRingWalk.TriangleSweepCCW | meshes/abstract_surface_mesh.cpp:108-114 | on a triangle the sweep has two corners, and the second follows the current vertex `curr_v` counter-clockwise |
| OneRingWalk.StepGrows | meshes/abstract_surface_mesh.cpp:105-106 | a round appends exactly the current face to `f_ring`, and the lists then start with what was collected plus the current vertex, face and edge |
| OneRingWalk.StepPreserves | meshes/abstract_surface_mesh.cpp:103-122 | a round keeps the walk invariant: incidence, per-face sizes, chaining of consecutive faces through shared edges, consecutive ring vertices joined by their link edge, and CCW winding on triangles |
| OneRingWalk.StepLinks | meshes/abstract_surface_mesh.cpp:109-119 | after a round link edge `k` still touches ring vertex `k+1`, also across the face boundary, and the last link edge reaches the new `curr_v` |
| OneRingWalk.Walk | meshes/abstract_surface_mesh.cpp:103-123 | defined as the do-while loop, recursively on values, until `e_ring` has as many entries as `adj_v2e(vid)`; `WalkFacts` states what it returns |
| OneRingWalk.WalkFacts | meshes/abstract_surface_mesh.cpp:103-123 | the do-while loop ends with between `|adj_v2e|` and `|adj_v2e|+1` edges, with one edge per face at an interior vertex, keeping the invariant and extending the start |
| OneRingWalk.OneRingFacts | meshes/abstract_surface_mesh.cpp:61-124 | a successful walk satisfies the invariant (`Collected`), has `|adj_v2e| <= |e_ring| <= |adj_v2e|+1`, has `|e_ring| == |f_ring| == |adj_v2e|` at an interior vertex, and starts from `StartOf` |
| OneRingWalk.FirstEntries | meshes/abstract_surface_mesh.cpp:103-106 | the first entries of the lists are the start vertex, face and edge |
| OneRingWalk.BoundaryRingStart | meshes/abstract_surface_mesh.cpp:81-101 | at a boundary vertex the walk had exactly two boundary edges to choose from; the ring starts at one of them, with its first face and opposite vertex, in CCW order; it starts at the front boundary edge whenever that edge's face passes the CCW test |
| OneRingWalk.InteriorRingStart | meshes/abstract_surface_mesh.cpp:73-77 | at an interior vertex the ring starts at the first edge of `adj_v2e`, a face of it and the opposite vertex; that face is the edge's front face when it passes the CCW test, and passes the test whenever some face of the edge does |
| OneRingWalk.InnerCountTriangles | meshes/abstract_surface_mesh.cpp:109-119 | on triangles every face contributes exactly one ring vertex and one link edge |
| OneRingWalk.RingCounts | meshes/abstract_surface_mesh.cpp:105-121 | every collected face and edge is incident to `vid`; link edge `k` touches ring vertices `k` and `k+1`; `v_ring` and `e_link` get `|face|-2` entries per face; `|f_ring| <= |e_ring| <= 2|f_ring|`; on triangles `|v_ring| == |f_ring| == |e_link|` |
| OneRingWalk.VertOrderedVertRing | meshes/abstract_surface_mesh.cpp:130-138 | the walk's vertex ring, or its error; on triangles as long as the face ring |
| OneRingWalk.VertOrderedFaceRing | meshes/abstract_surface_mesh.cpp:144-152 | the walk's face ring, or its error; every face in it contains `vid` |
| OneRingWalk.VertOrderedEdgeRing | meshes/abstract_surface_mesh.cpp:158-166 | the walk's edge ring, or its error; every edge contains `vid`, and there are `|adj_v2e|` or `|adj_v2e|+1` of them |
| OneRingWalk.VertOrderedEdgeLink | meshes/abstract_surface_mesh.cpp:172-180 | the walk's link edges, or its error; link edge `k` joins ring vertex `k` to ring vertex `k+1` |
| OneRingWalk.LinkEdgesJoin | meshes/abstract_surface_mesh.cpp:109-119 | a successful walk has as many link edges as ring vertices, and link edge `k` joins ring vertices `k` and `k+1` |
| Dual.DualMesh | dual_mesh.cpp:49-104 | the imperative construction returns exactly `DualOf(m, with_clipped_cells)`, errors included |
| Dual.BarycenterVerts | dual_mesh.cpp:57-62 | one dual vertex per triangle, entry `t` being the barycenter of triangle `t` |
| Dual.AppendBoundaryVerts | dual_mesh.cpp:67-74 | the boundary vertices are appended in increasing order, and each is mapped to its consecutive index after the barycenters |
| Dual.AppendBoundaryEdges | dual_mesh.cpp:75-82 | the boundary edges' midpoints are appended in increasing order, and each edge is mapped to its consecutive index after the boundary vertices |
| Dual.LayoutOfSteps | dual_mesh.cpp:57-82 | the three filling loops together produce `Layout`, `VertSlots` and `EdgeSlots` |
| Dual.LayoutVertSlots | dual_mesh.cpp:57-74 | `|dual_verts|` is #triangles + #boundary vertices + #boundary edges; entry `t < #triangles` is `Bary(t)`; `v2verts` maps exactly the boundary vertices, each to an index in its block that holds `VertPos(v)` |
| Dual.LayoutEdgeSlots | dual_mesh.cpp:75-82 | `e2verts` maps exactly the boundary edges, each to an index in the last block that holds `Mid(e)` |
| Dual.SlotOrder | dual_mesh.cpp:67-82 | the k-th boundary vertex gets index #triangles+k, the k-th boundary edge #triangles+#boundary vertices+k; both maps increase with the key |
| Dual.SlotsDomain | dual_mesh.cpp:67-82 | a filling loop maps exactly the elements whose test holds |
| Dual.SlotsOfMarked | dual_mesh.cpp:67-82 | the k-th element whose test holds is mapped to `base + k` |
| Dual.AdmittedCount | dual_mesh.cpp:85-88 | all vertices are admitted with clipped cells, and only the non-boundary ones without |
| Dual.AdmittedExact | dual_mesh.cpp:85-88 | the admitted indices are strictly increasing and include every index that qualifies |
| Dual.DualAdmitted | dual_mesh.cpp:85-88 | the vertices that get a polygon come in strictly increasing order, and a vertex gets one iff clipped cells are wanted or it is not a boundary vertex |
| Dual.Layout | dual_mesh.cpp:57-82 | defined as the barycenters, then the boundary vertices, then the boundary edge midpoints; `LayoutVertSlots`, `LayoutEdgeSlots` and `SlotOrder` state its shape |
| Dual.VertSlots | dual_mesh.cpp:67-74 | defined as the numbering of the boundary vertices after the barycenters; `LayoutVertSlots` and `SlotOrder` state what it maps |
| Dual.EdgeSlots | dual_mesh.cpp:75-82 | defined as the numbering of the boundary edges after the boundary vertices; `LayoutEdgeSlots` and `SlotOrder` state what it maps |
| Dual.FacesOfAdmitted | dual_mesh.cpp:85-103 | the polygons are the cells of the admitted vertices in increasing order; assembly fails iff an admitted cell fails, and then with the first such failure |
| Dual.DualFaces | dual_mesh.cpp:54-103 | the result's vertices are `Layout(m)`; there are `num_vertices` polygons with clipped cells, or the number of non-boundary vertices without; polygon k is the cell of the k-th admitted vertex; an error is the first failing admitted cell's |
| Dual.AssembleFaces | dual_mesh.cpp:85-103 | the polygon loop computes the faces of the admitted cells (`FacesOver`) |
| Dual.AdmitCell | dual_mesh.cpp:86-102 | one iteration skips a clipped vertex when not wanted, appends its cell otherwise, and stops with the error of a failing cell |
| Dual.DualCell | dual_mesh.cpp:87-100 | the polygon built for `vid` is `Cell(m, vid)` |
| Dual.Cell | dual_mesh.cpp:87-100 | defined as the ordered triangle ring of `vid`, closed by three indices at a boundary vertex; `CellShape`, `CellBoundary` and `IsolatedVertCell` state its shape |
| Dual.DualOf | dual_mesh.cpp:49-104 | defined as `Layout(m)` and the cells of the admitted vertices; `DualFaces` and `DualAdmitted` state what it returns |
| Dual.CloseCell | dual_mesh.cpp:94-100 | the three appended indices are computed as `ClosedCell`, failing with the unmapped edge at the first lookup miss |
| Dual.ClosedCellResolves | dual_mesh.cpp:94-100 | a closed cell is the ring plus three indices, all in range, naming the midpoint of the last ring edge, the vertex, and the midpoint of the first ring edge |
| Dual.RingBarycenters | dual_mesh.cpp:91-92 | every triangle of a vertex's ring is a valid dual vertex index naming that triangle's barycenter |
| Dual.CellShape | dual_mesh.cpp:90-100 | every dual polygon starts with its vertex's ordered triangle ring; every index is `< |dual_verts|`; at an interior vertex the polygon is exactly the ring |
| Dual.CellBoundary | dual_mesh.cpp:94-100 | at a boundary vertex the polygon is the ring followed by the indices of `Mid(back edge)`, `VertPos(vid)` and `Mid(front edge)`, so its length is ring + 3 |
| Dual.BoundaryVertCellFacts | dual_mesh.cpp:94-98 | a boundary vertex has an index in `v2verts`, and its edge ring is not empty |
| Dual.FrontEdgeMapped | dual_mesh.cpp:99 | the first ordered edge of a boundary vertex is a boundary edge, so its `e2verts` lookup succeeds |
| Dual.IsolatedVertCell | dual_mesh.cpp:85-102 | a vertex without incident edges is not a boundary vertex, and its polygon is empty |

## Left out

- `vert_area`, `vert_mass` and `face_mass` (meshes/abstract_surface_mesh.cpp:186-200, 325-328) are floating-point sums of face areas, and are not modelled.
- Positions are not computed: the barycenters (dual_mesh.cpp:61), vertex positions (:72) and edge midpoints (:80) are represented by the symbols `Bary`, `VertPos` and `Mid`.
- The `Polygonmesh<>` wrapper overload of `dual_mesh` (dual_mesh.cpp:37-45) builds a mesh object from the two vectors. It is not modelled.
- How the mesh builds and stores its adjacency is not part of this model: `adj_v2e`, `adj_e2f`, `adj_f2e`, `adj_f2f` and the edge and face lists are inputs constrained by `WellFormed`.
- `face_vert_offset` and `face_edge_id` are not part of this model. They are stood in for by first-match lookups, `FaceVertOffset` and `FaceEdgeId`. A missing edge is an error, `MissingFaceEdge`.
- `SurfaceMesh.VertOppositeTo`: the assertion that the edge contains `vid` (meshes/abstract_surface_mesh.cpp:40) is a precondition, not an error outcome. Every call in the walk meets it.
- Behaviour with assertions compiled out (`NDEBUG`) is not modelled: a failed check ends the computation with an error.
- The output vectors are results rather than in-out arguments. That the source clears them first (meshes/abstract_surface_mesh.cpp:67-70, dual_mesh.cpp:54-55) shows only in that the results do not depend on prior contents.
- A partial output left behind by a failed check is not modelled: the error replaces the result.
- `uint` widths and the signed loop counters of `dual_mesh` are not modelled: indices are unbounded naturals.
- `SurfaceMesh.BoundaryEdgesOf`: its own contract states only which edges are returned. Their order and multiplicity (those of `adj_v2e(vid)`) are stated by `BoundaryEdgesInConcat` and `BoundaryEdgesInSingle`.
- `SurfaceMesh.FaceAdjacentAlong`: the contract does not say that the neighbour returned is the first qualifying one in `adj_f2f(fid)`. The definition scans in that order.
- `SurfaceMesh.FaceWithBoundaryEdge` and `SurfaceMesh.FaceWithInteriorEdges` assume that `adj_f2f` lists exactly the faces across the face's edges (`FaceNeighbours`). The mesh's construction of `adj_f2f` is not modelled.
- `Dual.CellBoundary`: the `e2verts` lookup of the last ordered edge (dual_mesh.cpp:97) is proved to name a midpoint whenever it succeeds. That it always succeeds (the walk ends on the second boundary edge) is not proved, and a miss stays an error, `UnmappedEdge`.
- That the walk covers the whole umbrella of a vertex (every incident face visited exactly once) is not proved. The model proves the size, incidence, chaining and winding invariants, and the edge-count bounds at exit.
