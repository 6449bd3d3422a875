/**
 * Connectivity of a polygonal surface mesh, taken as a read-only value, and the
 * local topology queries of the abstract surface mesh: boundary and manifold
 * tests, opposite vertex, winding order inside a face, shared faces and edges.
 */
module SurfaceMesh {
  import opened Wrappers

  /** The contract failures the queries check for (assertions in the original code). */
  datatype TopologyError =
    | NonManifoldEdge(eid: nat)      // an edge with more than two incident faces
    | BoundaryEdgeCount(count: nat)  // a vertex with boundary edges, but not exactly two of them
    | StartFaceNotCCW(vid: nat)      // neither boundary edge offers a start face in CCW order
    | MissingFaceEdge(fid: nat)      // no edge of the face joins the two requested vertices
    | SharedVertCount(count: nat)    // two faces that do not share exactly two corners

  /**
   * The adjacency relations the mesh provides. Vertices, edges and faces are
   * indices: |adjV2E| vertices, |edgeVerts| edges, |faceVerts| faces.
   */
  datatype Mesh = Mesh(
    edgeVerts: seq<(nat, nat)>,  // the two endpoints of each edge
    faceVerts: seq<seq<nat>>,    // the vertex cycle of each face, counter-clockwise
    adjF2E: seq<seq<nat>>,       // the edges of each face
    adjV2E: seq<seq<nat>>,       // the edges incident to each vertex
    adjE2F: seq<seq<nat>>,       // the faces incident to each edge
    adjF2F: seq<seq<nat>>)       // the faces adjacent to each face

  // ---------------------------------------------------------------------------
  // Well-formedness of the adjacency the mesh hands to the queries

  /** Every edge joins two distinct vertices and is listed at both of them. */
  ghost predicate ValidEdges(m: Mesh) {
    |m.adjE2F| == |m.edgeVerts| &&
    forall e :: 0 <= e < |m.edgeVerts| ==>
      m.edgeVerts[e].0 < |m.adjV2E| && m.edgeVerts[e].1 < |m.adjV2E| &&
      m.edgeVerts[e].0 != m.edgeVerts[e].1 &&
      e in m.adjV2E[m.edgeVerts[e].0] && e in m.adjV2E[m.edgeVerts[e].1]
  }

  /** No entry of s occurs twice. */
  predicate NoRepeats(s: seq<nat>) {
    |s| == 0 || (s[0] !in s[1..] && NoRepeats(s[1..]))
  }

  lemma {:induction false} NoRepeatsAt(s: seq<nat>, i: nat, j: nat)
    requires NoRepeats(s) && i < j < |s|
    ensures s[i] != s[j]
  {
    if i == 0 {
      assert s[j] == s[1..][j - 1];
    } else {
      NoRepeatsAt(s[1..], i - 1, j - 1);
    }
  }

  /** Every face is a cycle of at least three distinct vertices. */
  ghost predicate ValidFaces(m: Mesh) {
    |m.adjF2E| == |m.faceVerts| && |m.adjF2F| == |m.faceVerts| &&
    forall f :: 0 <= f < |m.faceVerts| ==>
      |m.faceVerts[f]| >= 3 &&
      (forall i :: 0 <= i < |m.faceVerts[f]| ==> m.faceVerts[f][i] < |m.adjV2E|) &&
      NoRepeats(m.faceVerts[f]) &&
      (forall k :: 0 <= k < |m.adjF2F[f]| ==> m.adjF2F[f][k] < |m.faceVerts|)
  }

  /** The edges listed at a vertex exist and contain it. */
  ghost predicate ValidVertEdges(m: Mesh) {
    forall v, i :: 0 <= v < |m.adjV2E| && 0 <= i < |m.adjV2E[v]| ==>
      m.adjV2E[v][i] < |m.edgeVerts| &&
      (m.edgeVerts[m.adjV2E[v][i]].0 == v || m.edgeVerts[m.adjV2E[v][i]].1 == v)
  }

  /** Every edge has at least one incident face, listed once, containing both endpoints. */
  ghost predicate ValidEdgeFaces(m: Mesh)
    requires |m.adjE2F| == |m.edgeVerts|
  {
    forall e :: 0 <= e < |m.adjE2F| ==>
      |m.adjE2F[e]| >= 1 &&
      NoRepeats(m.adjE2F[e]) &&
      (forall i :: 0 <= i < |m.adjE2F[e]| ==>
        m.adjE2F[e][i] < |m.faceVerts| &&
        m.edgeVerts[e].0 in m.faceVerts[m.adjE2F[e][i]] &&
        m.edgeVerts[e].1 in m.faceVerts[m.adjE2F[e][i]])
  }

  /** The edges of a face exist and list that face among their incident faces. */
  ghost predicate ValidFaceEdges(m: Mesh)
    requires |m.adjE2F| == |m.edgeVerts| && |m.adjF2E| == |m.faceVerts|
  {
    forall f, k :: 0 <= f < |m.faceVerts| && 0 <= k < |m.adjF2E[f]| ==>
      m.adjF2E[f][k] < |m.edgeVerts| && f in m.adjE2F[m.adjF2E[f][k]]
  }

  ghost predicate WellFormed(m: Mesh) {
    ValidEdges(m) && ValidFaces(m) && ValidVertEdges(m) &&
    ValidEdgeFaces(m) && ValidFaceEdges(m)
  }

  /** A triangle mesh: every face has exactly three vertices. */
  ghost predicate IsTrimesh(m: Mesh) {
    forall f :: 0 <= f < |m.faceVerts| ==> |m.faceVerts[f]| == 3
  }

  // ---------------------------------------------------------------------------
  // Element queries provided by the mesh

  predicate EdgeContainsVert(m: Mesh, eid: nat, vid: nat)
    requires eid < |m.edgeVerts|
  {
    m.edgeVerts[eid].0 == vid || m.edgeVerts[eid].1 == vid
  }

  /** Position of the first occurrence of x in s. */
  function IndexOf(s: seq<nat>, x: nat): (i: nat)
    requires x in s
    ensures i < |s| && s[i] == x
    ensures forall j :: 0 <= j < i ==> s[j] != x
  {
    if s[0] == x then 0 else 1 + IndexOf(s[1..], x)
  }

  /** The offset of vertex vid in the vertex cycle of face fid. */
  function FaceVertOffset(m: Mesh, fid: nat, vid: nat): (off: nat)
    requires fid < |m.faceVerts| && vid in m.faceVerts[fid]
    ensures off < |m.faceVerts[fid]| && m.faceVerts[fid][off] == vid
  {
    IndexOf(m.faceVerts[fid], vid)
  }

  /** With distinct vertices, the offset of a face corner is its position. */
  lemma OffsetOfCorner(m: Mesh, fid: nat, i: nat)
    requires WellFormed(m) && fid < |m.faceVerts| && i < |m.faceVerts[fid]|
    ensures FaceVertOffset(m, fid, m.faceVerts[fid][i]) == i
  {
    var off := FaceVertOffset(m, fid, m.faceVerts[fid][i]);
    if off < i {
      NoRepeatsAt(m.faceVerts[fid], off, i);
      assert false;
    }
  }

  /** The first edge of face fid that contains both vertices; None when the face has no such edge. */
  function FindEdge(m: Mesh, es: seq<nat>, v0: nat, v1: nat): (r: Option<nat>)
    requires forall k :: 0 <= k < |es| ==> es[k] < |m.edgeVerts|
    ensures r.Some? ==> r.value in es && EdgeContainsVert(m, r.value, v0) && EdgeContainsVert(m, r.value, v1)
    ensures r.None? ==> forall k :: 0 <= k < |es| ==> !(EdgeContainsVert(m, es[k], v0) && EdgeContainsVert(m, es[k], v1))
  {
    if es == [] then None
    else if EdgeContainsVert(m, es[0], v0) && EdgeContainsVert(m, es[0], v1) then Some(es[0])
    else FindEdge(m, es[1..], v0, v1)
  }

  /** The edges listed for face fid exist. */
  ghost predicate FaceEdgesExist(m: Mesh, fid: nat) {
    fid < |m.adjF2E| && forall k :: 0 <= k < |m.adjF2E[fid]| ==> m.adjF2E[fid][k] < |m.edgeVerts|
  }

  lemma FaceEdgesOfWellFormed(m: Mesh, fid: nat)
    requires WellFormed(m) && fid < |m.faceVerts|
    ensures FaceEdgesExist(m, fid)
  {
  }

  /** The edge of face fid joining v0 and v1 (the first one listed); None when the face has none. */
  function FaceEdgeId(m: Mesh, fid: nat, v0: nat, v1: nat): (r: Option<nat>)
    requires FaceEdgesExist(m, fid)
    ensures r.Some? ==> r.value < |m.edgeVerts| && r.value in m.adjF2E[fid]
    ensures r.Some? ==> EdgeContainsVert(m, r.value, v0) && EdgeContainsVert(m, r.value, v1)
    ensures r.None? ==> forall e :: e in m.adjF2E[fid] ==> !(EdgeContainsVert(m, e, v0) && EdgeContainsVert(m, e, v1))
  {
    FindEdge(m, m.adjF2E[fid], v0, v1)
  }

  // ---------------------------------------------------------------------------
  // Generic scans with early exit

  /** The first element of xs satisfying p, or -1 when there is none. */
  function FirstWhere(xs: seq<nat>, p: nat -> bool): (r: int)
    ensures r == -1 <==> forall i :: 0 <= i < |xs| ==> !p(xs[i])
    ensures r != -1 ==> exists i :: 0 <= i < |xs| && xs[i] == r && p(xs[i]) && forall j :: 0 <= j < i ==> !p(xs[j])
  {
    if xs == [] then -1
    else if p(xs[0]) then xs[0]
    else
      var r := FirstWhere(xs[1..], p);
      assert r != -1 ==> exists i :: 0 <= i < |xs| && xs[i] == r && p(xs[i]) && forall j :: 0 <= j < i ==> !p(xs[j]) by {
        if r != -1 {
          var i :| 0 <= i < |xs[1..]| && xs[1..][i] == r && p(xs[1..][i]) && forall j :: 0 <= j < i ==> !p(xs[1..][j]);
          assert xs[i + 1] == r && forall j :: 0 <= j < i + 1 ==> !p(xs[j]) by {
            forall j | 0 <= j < i + 1 ensures !p(xs[j]) {
              if j > 0 { assert xs[j] == xs[1..][j - 1]; }
            }
          }
        }
      }
      r
  }

  /** Whether some element of xs satisfies p. */
  function AnyWhere(xs: seq<nat>, p: nat -> bool): (b: bool)
    ensures b <==> exists i :: 0 <= i < |xs| && p(xs[i])
  {
    if xs == [] then false
    else if p(xs[0]) then true
    else
      var b := AnyWhere(xs[1..], p);
      assert b ==> exists i :: 0 <= i < |xs| && p(xs[i]) by {
        if b {
          var i :| 0 <= i < |xs[1..]| && p(xs[1..][i]);
          assert xs[i + 1] == xs[1..][i];
        }
      }
      assert (exists i :: 0 <= i < |xs| && p(xs[i])) ==> b by {
        if exists i :: 0 <= i < |xs| && p(xs[i]) {
          var i :| 0 <= i < |xs| && p(xs[i]);
          assert i > 0 && xs[1..][i - 1] == xs[i];
        }
      }
      b
  }

  // ---------------------------------------------------------------------------
  // Edge, face and vertex queries

  /** The endpoint of edge eid that is not vid. */
  function VertOppositeTo(m: Mesh, eid: nat, vid: nat): (r: nat)
    requires eid < |m.edgeVerts| && EdgeContainsVert(m, eid, vid)
    ensures EdgeContainsVert(m, eid, r)
    ensures {r, vid} == {m.edgeVerts[eid].0, m.edgeVerts[eid].1}
    ensures m.edgeVerts[eid].0 != m.edgeVerts[eid].1 ==> r != vid
  {
    if m.edgeVerts[eid].0 != vid then m.edgeVerts[eid].0 else m.edgeVerts[eid].1
  }

  /** The entry after position i, cyclically. */
  function Successor(s: seq<nat>, i: nat): nat
    requires i < |s|
  {
    s[(i + 1) % |s|]
  }

  /** Whether curr comes right after prev in the counter-clockwise cycle of face fid. */
  predicate VertsAreOrderedCCW(m: Mesh, fid: nat, curr: nat, prev: nat)
    requires fid < |m.faceVerts| && curr in m.faceVerts[fid] && prev in m.faceVerts[fid]
  {
    FaceVertOffset(m, fid, curr) == (FaceVertOffset(m, fid, prev) + 1) % |m.faceVerts[fid]|
  }

  /** The offset test is exactly "curr follows prev somewhere along the face cycle". */
  lemma CCWIsSuccession(m: Mesh, fid: nat, curr: nat, prev: nat)
    requires WellFormed(m) && fid < |m.faceVerts|
    requires curr in m.faceVerts[fid] && prev in m.faceVerts[fid]
    ensures VertsAreOrderedCCW(m, fid, curr, prev) <==>
      exists i :: 0 <= i < |m.faceVerts[fid]| && m.faceVerts[fid][i] == prev &&
                  Successor(m.faceVerts[fid], i) == curr
  {
    var face := m.faceVerts[fid];
    var n := |face|;
    var p := FaceVertOffset(m, fid, prev);
    if exists i :: 0 <= i < n && face[i] == prev && Successor(face, i) == curr {
      var i :| 0 <= i < n && face[i] == prev && Successor(face, i) == curr;
      OffsetOfCorner(m, fid, i);
      OffsetOfCorner(m, fid, (i + 1) % n);
    }
    if VertsAreOrderedCCW(m, fid, curr, prev) {
      assert face[p] == prev && face[(p + 1) % n] == curr;
    }
  }

  predicate EdgeIsManifold(m: Mesh, eid: nat)
    requires eid < |m.adjE2F|
  {
    |m.adjE2F[eid]| <= 2
  }

  predicate EdgeIsBoundary(m: Mesh, eid: nat)
    requires eid < |m.adjE2F|
  {
    |m.adjE2F[eid]| < 2
  }

  predicate FaceIsBoundary(m: Mesh, fid: nat)
    requires fid < |m.adjF2F|
  {
    |m.adjF2F[fid]| < 3
  }

  /** The edges of fid exist, each lists fid among its faces, and none lists a face twice. */
  ghost predicate FaceEdgesListFace(m: Mesh, fid: nat)
    requires fid < |m.adjF2E|
  {
    forall k :: 0 <= k < |m.adjF2E[fid]| ==>
      m.adjF2E[fid][k] < |m.adjE2F| && fid in m.adjE2F[m.adjF2E[fid][k]] && NoRepeats(m.adjE2F[m.adjF2E[fid][k]])
  }

  lemma FaceEdgesListFaceOfWellFormed(m: Mesh, fid: nat)
    requires WellFormed(m) && fid < |m.faceVerts|
    ensures FaceEdgesListFace(m, fid)
  {
  }

  /** The faces listed as adjacent to fid are exactly the other faces of its edges, each listed once. */
  ghost predicate FaceNeighbours(m: Mesh, fid: nat)
    requires fid < |m.adjF2E| && fid < |m.adjF2F| && FaceEdgesListFace(m, fid)
  {
    NoRepeats(m.adjF2F[fid]) &&
    forall g: nat :: g in m.adjF2F[fid] <==>
      g != fid && exists k :: 0 <= k < |m.adjF2E[fid]| && g in m.adjE2F[m.adjF2E[fid][k]]
  }

  /** A manifold edge of fid leads to at most one face besides fid. */
  lemma OnlyOtherFace(fs: seq<nat>, fid: nat, g: nat, h: nat)
    requires |fs| <= 2 && fid in fs && g in fs && h in fs && g != fid && h != fid
    ensures g == h
  {
  }

  /** A sequence holding three distinct values has at least three entries. */
  lemma ThreeDistinct(s: seq<nat>, a: nat, b: nat, c: nat)
    requires a in s && b in s && c in s && a != b && a != c && b != c
    ensures |s| >= 3
  {
  }

  /** A triangle with a boundary edge, all of whose edges are manifold, is a boundary face. */
  lemma FaceWithBoundaryEdge(m: Mesh, fid: nat)
    requires fid < |m.adjF2E| && fid < |m.adjF2F| && |m.adjF2E[fid]| == 3
    requires FaceEdgesListFace(m, fid) && FaceNeighbours(m, fid)
    requires forall k :: 0 <= k < 3 ==> EdgeIsManifold(m, m.adjF2E[fid][k])
    requires exists k :: 0 <= k < 3 && EdgeIsBoundary(m, m.adjF2E[fid][k])
    ensures FaceIsBoundary(m, fid)
  {
    var es, nbrs := m.adjF2E[fid], m.adjF2F[fid];
    var b :| 0 <= b < 3 && EdgeIsBoundary(m, es[b]);
    if |nbrs| >= 3 {
      NoRepeatsAt(nbrs, 0, 1);
      NoRepeatsAt(nbrs, 0, 2);
      NoRepeatsAt(nbrs, 1, 2);
      // Each of three distinct neighbours lies across one of the two edges other than es[b].
      var across: seq<nat> := [];
      for i := 0 to 3
        invariant |across| == i
        invariant forall j :: 0 <= j < i ==>
          across[j] < 3 && across[j] != b && nbrs[j] in m.adjE2F[es[across[j]]] && nbrs[j] != fid
      {
        assert nbrs[i] in nbrs;
        assert nbrs[i] != fid;
        var k :| 0 <= k < 3 && nbrs[i] in m.adjE2F[es[k]];
        assert k != b;
        across := across + [k];
      }
      if across[0] == across[1] {
        OnlyOtherFace(m.adjE2F[es[across[0]]], fid, nbrs[0], nbrs[1]);
      } else if across[0] == across[2] {
        OnlyOtherFace(m.adjE2F[es[across[0]]], fid, nbrs[0], nbrs[2]);
      } else {
        OnlyOtherFace(m.adjE2F[es[across[1]]], fid, nbrs[1], nbrs[2]);
      }
    }
  }

  /** A triangle whose three edges are interior and lead to three different faces is not a boundary face. */
  lemma FaceWithInteriorEdges(m: Mesh, fid: nat)
    requires fid < |m.adjF2E| && fid < |m.adjF2F| && |m.adjF2E[fid]| == 3
    requires FaceEdgesListFace(m, fid) && FaceNeighbours(m, fid)
    requires forall k :: 0 <= k < 3 ==> !EdgeIsBoundary(m, m.adjF2E[fid][k])
    requires forall i, j, g, h :: (0 <= i < j < 3 && g in m.adjE2F[m.adjF2E[fid][i]] && h in m.adjE2F[m.adjF2E[fid][j]] &&
      g != fid && h != fid) ==> g != h
    ensures !FaceIsBoundary(m, fid)
  {
    var es := m.adjF2E[fid];
    var across: seq<nat> := [];
    for i := 0 to 3
      invariant |across| == i
      invariant forall j :: 0 <= j < i ==> across[j] in m.adjE2F[es[j]] && across[j] != fid && across[j] in m.adjF2F[fid]
    {
      var fs := m.adjE2F[es[i]];
      NoRepeatsAt(fs, 0, 1);
      var g := if fs[0] == fid then fs[1] else fs[0];
      assert g != fid && g in m.adjE2F[es[i]];
      across := across + [g];
    }
    ThreeDistinct(m.adjF2F[fid], across[0], across[1], across[2]);
  }

  /** A boundary edge has exactly one face; a manifold interior edge exactly two. */
  lemma EdgeFaceCounts(m: Mesh, eid: nat)
    requires WellFormed(m) && eid < |m.edgeVerts|
    ensures EdgeIsBoundary(m, eid) ==> EdgeIsManifold(m, eid)
    ensures EdgeIsBoundary(m, eid) <==> |m.adjE2F[eid]| == 1
    ensures EdgeIsManifold(m, eid) && !EdgeIsBoundary(m, eid) <==> |m.adjE2F[eid]| == 2
  {
  }

  /** The boundary edges among es, in their order. */
  function BoundaryEdgesIn(m: Mesh, es: seq<nat>): (r: seq<nat>)
    requires forall k :: 0 <= k < |es| ==> es[k] < |m.adjE2F|
    ensures |r| <= |es|
    ensures forall e :: e in r <==> e in es && e < |m.adjE2F| && EdgeIsBoundary(m, e)
  {
    if es == [] then []
    else
      var rest := BoundaryEdgesIn(m, es[..|es| - 1]);
      assert es == es[..|es| - 1] + [es[|es| - 1]];
      if EdgeIsBoundary(m, es[|es| - 1]) then rest + [es[|es| - 1]] else rest
  }

  /** A single edge is kept exactly when it is a boundary edge. */
  lemma BoundaryEdgesInSingle(m: Mesh, e: nat)
    requires e < |m.adjE2F|
    ensures BoundaryEdgesIn(m, [e]) == if EdgeIsBoundary(m, e) then [e] else []
  {
    assert [e][..0] == [];
  }

  /**
   * Filtering distributes over concatenation; with BoundaryEdgesInSingle, the
   * result lists the boundary edges of es in their order, each as often as es does.
   */
  lemma {:induction false} BoundaryEdgesInConcat(m: Mesh, es1: seq<nat>, es2: seq<nat>)
    requires forall k :: 0 <= k < |es1| ==> es1[k] < |m.adjE2F|
    requires forall k :: 0 <= k < |es2| ==> es2[k] < |m.adjE2F|
    ensures BoundaryEdgesIn(m, es1 + es2) == BoundaryEdgesIn(m, es1) + BoundaryEdgesIn(m, es2)
    decreases |es2|
  {
    if es2 == [] {
      assert es1 + es2 == es1;
    } else {
      var init := es2[..|es2| - 1];
      BoundaryEdgesInConcat(m, es1, init);
      assert (es1 + es2)[..|es1 + es2| - 1] == es1 + init;
    }
  }

  /** Appending one edge appends it to the filtered list exactly when it is a boundary edge. */
  lemma BoundaryEdgesInSnoc(m: Mesh, es: seq<nat>, x: nat)
    requires forall k :: 0 <= k < |es| ==> es[k] < |m.adjE2F|
    requires x < |m.adjE2F|
    ensures BoundaryEdgesIn(m, es + [x]) == BoundaryEdgesIn(m, es) + if EdgeIsBoundary(m, x) then [x] else []
  {
    assert (es + [x])[..|es|] == es;
  }

  /** The boundary edges incident to vid, in the order of its incident-edge list. */
  ghost function BoundaryEdgesOf(m: Mesh, vid: nat): (r: seq<nat>)
    requires WellFormed(m) && vid < |m.adjV2E|
    ensures forall k :: 0 <= k < |r| ==> r[k] < |m.edgeVerts| && EdgeContainsVert(m, r[k], vid) && EdgeIsBoundary(m, r[k])
    ensures forall e: nat :: e < |m.edgeVerts| && EdgeContainsVert(m, e, vid) && EdgeIsBoundary(m, e) ==> e in r
  {
    var r := BoundaryEdgesIn(m, m.adjV2E[vid]);
    assert forall k :: 0 <= k < |r| ==> r[k] in r;
    r
  }

  method VertBoundaryEdges(m: Mesh, vid: nat) returns (bEdges: seq<nat>)
    requires WellFormed(m) && vid < |m.adjV2E|
    ensures bEdges == BoundaryEdgesOf(m, vid)
  {
    var es := m.adjV2E[vid];
    bEdges := [];
    for i := 0 to |es|
      invariant bEdges == BoundaryEdgesIn(m, es[..i])
    {
      assert es[..i + 1][..i] == es[..i];
      if EdgeIsBoundary(m, es[i]) {
        bEdges := bEdges + [es[i]];
      }
    }
    assert es[..|es|] == es;
  }

  /** A vertex is on the boundary when one of its incident edges is. */
  function VertIsBoundary(m: Mesh, vid: nat): bool
    requires vid < |m.adjV2E|
  {
    AnyWhere(m.adjV2E[vid], (e: nat) => e < |m.adjE2F| && EdgeIsBoundary(m, e))
  }

  /** The early-exit scan agrees with the list of boundary edges: a vertex is on the boundary iff that list is non-empty. */
  lemma VertIsBoundaryIff(m: Mesh, vid: nat)
    requires WellFormed(m) && vid < |m.adjV2E|
    ensures VertIsBoundary(m, vid) <==> |BoundaryEdgesOf(m, vid)| > 0
  {
    if VertIsBoundary(m, vid) {
      var i :| 0 <= i < |m.adjV2E[vid]| && m.adjV2E[vid][i] < |m.adjE2F| && EdgeIsBoundary(m, m.adjV2E[vid][i]);
      assert m.adjV2E[vid][i] in BoundaryEdgesOf(m, vid);
    }
    if |BoundaryEdgesOf(m, vid)| > 0 {
      var e := BoundaryEdgesOf(m, vid)[0];
      assert e in m.adjV2E[vid];
      var i :| 0 <= i < |m.adjV2E[vid]| && m.adjV2E[vid][i] == e;
    }
  }

  /** The first face of edge e0's list that edge e1 also has, or -1. */
  function FaceShared(m: Mesh, e0: nat, e1: nat): (r: int)
    requires e0 < |m.adjE2F| && e1 < |m.adjE2F|
    ensures r == -1 <==> forall f :: f in m.adjE2F[e0] ==> f !in m.adjE2F[e1]
    ensures r != -1 ==> r in m.adjE2F[e0] && r in m.adjE2F[e1]
    ensures r != -1 ==> forall j :: 0 <= j < |m.adjE2F[e0]| && m.adjE2F[e0][j] in m.adjE2F[e1] ==> IndexOf(m.adjE2F[e0], r) <= j
  {
    var fs0, fs1 := m.adjE2F[e0], m.adjE2F[e1];
    var r := FirstWhere(fs0, f => f in fs1);
    assert r == -1 <==> forall f :: f in fs0 ==> f !in fs1 by {
      if r == -1 {
        forall f | f in fs0 ensures f !in fs1 {
          var i :| 0 <= i < |fs0| && fs0[i] == f;
        }
      }
    }
    assert r != -1 ==> forall j :: 0 <= j < |fs0| && fs0[j] in fs1 ==> IndexOf(fs0, r) <= j by {
      if r != -1 {
        var i :| 0 <= i < |fs0| && fs0[i] == r && r in fs1 && forall j :: 0 <= j < i ==> fs0[j] !in fs1;
        assert IndexOf(fs0, r) <= i;
      }
    }
    r
  }

  /** Whether the two edges have a face in common. */
  function EdgesShareFace(m: Mesh, e0: nat, e1: nat): (b: bool)
    requires e0 < |m.adjE2F| && e1 < |m.adjE2F|
    ensures b <==> FaceShared(m, e0, e1) != -1
    ensures b <==> exists f :: f in m.adjE2F[e0] && f in m.adjE2F[e1]
  {
    var fs1 := m.adjE2F[e1];
    AnyWhere(m.adjE2F[e0], f => f in fs1)
  }

  /** The first face adjacent to fid that contains both v0 and v1, or -1; the edge v0-v1 must be manifold. */
  function FaceAdjacentAlong(m: Mesh, fid: nat, v0: nat, v1: nat): (r: Result<int, TopologyError>)
    requires WellFormed(m) && fid < |m.faceVerts|
    ensures r.Err? <==> FaceEdgeId(m, fid, v0, v1).None? || !EdgeIsManifold(m, FaceEdgeId(m, fid, v0, v1).value)
    ensures r.Ok? && r.value != -1 ==>
      r.value in m.adjF2F[fid] && 0 <= r.value < |m.faceVerts| &&
      v0 in m.faceVerts[r.value] && v1 in m.faceVerts[r.value]
    ensures r.Ok? && r.value == -1 ==> forall g :: g in m.adjF2F[fid] ==> !(v0 in m.faceVerts[g] && v1 in m.faceVerts[g])
  {
    match FaceEdgeId(m, fid, v0, v1)
    case None => Err(MissingFaceEdge(fid))
    case Some(eid) =>
      if !EdgeIsManifold(m, eid) then Err(NonManifoldEdge(eid))
      else
        var nbrs := m.adjF2F[fid];
        var r := FirstWhere(nbrs, (g: nat) => g < |m.faceVerts| && v0 in m.faceVerts[g] && v1 in m.faceVerts[g]);
        assert r == -1 ==> forall g :: g in nbrs ==> !(v0 in m.faceVerts[g] && v1 in m.faceVerts[g]) by {
          if r == -1 {
            forall g | g in nbrs ensures !(v0 in m.faceVerts[g] && v1 in m.faceVerts[g]) {
              var i :| 0 <= i < |nbrs| && nbrs[i] == g;
            }
          }
        }
        Ok(r)
  }

  /** The positions among the first three corners of f0 whose vertex f1 also has. */
  ghost function SharedCorners(m: Mesh, f0: nat, f1: nat): set<nat>
    requires f0 < |m.faceVerts| && f1 < |m.faceVerts| && |m.faceVerts[f0]| >= 3
  {
    set i: nat | i < 3 && m.faceVerts[f0][i] in m.faceVerts[f1]
  }

  lemma SharedCornersByCase(m: Mesh, f0: nat, f1: nat)
    requires f0 < |m.faceVerts| && f1 < |m.faceVerts| && |m.faceVerts[f0]| >= 3
    ensures SharedCorners(m, f0, f1) ==
      (if m.faceVerts[f0][0] in m.faceVerts[f1] then {0} else {}) +
      (if m.faceVerts[f0][1] in m.faceVerts[f1] then {1} else {}) +
      (if m.faceVerts[f0][2] in m.faceVerts[f1] then {2} else {})
  {
  }

  /** How many positions a union of optional singletons {0}, {1}, {2} holds. */
  lemma CountCorners(c: set<nat>, b0: bool, b1: bool, b2: bool)
    requires c == (if b0 then {0} else {}) + (if b1 then {1} else {}) + (if b2 then {2} else {})
    ensures |c| == (if b0 then 1 else 0) + (if b1 then 1 else 0) + (if b2 then 1 else 0)
  {
    if b0 && b1 && b2 { assert c == {0, 1, 2}; }
    else if b0 && b1 { assert c == {0, 1}; }
    else if b0 && b2 { assert c == {0, 2}; }
    else if b1 && b2 { assert c == {1, 2}; }
    else if b0 { assert c == {0}; }
    else if b1 { assert c == {1}; }
    else if b2 { assert c == {2}; }
    else { assert c == {}; }
  }

  /**
   * The edge two triangles share, as its two vertices in the order they appear
   * among f0's first three corners; fails unless exactly two corners are shared.
   */
  method EdgeShared(m: Mesh, f0: nat, f1: nat) returns (r: Result<(nat, nat), TopologyError>)
    requires f0 < |m.faceVerts| && f1 < |m.faceVerts| && |m.faceVerts[f0]| >= 3
    ensures r.Ok? <==> |SharedCorners(m, f0, f1)| == 2
    ensures r.Err? ==> r.error == SharedVertCount(|SharedCorners(m, f0, f1)|)
    ensures r.Ok? ==>
      exists i: nat, j: nat :: i < j < 3 && SharedCorners(m, f0, f1) == {i, j} &&
        r.value == (m.faceVerts[f0][i], m.faceVerts[f0][j])
  {
    var face0, face1 := m.faceVerts[f0], m.faceVerts[f1];
    var shared: seq<nat> := [];
    var v0, v1, v2 := face0[0], face0[1], face0[2];
    if v0 in face1 { shared := shared + [v0]; }
    if v1 in face1 { shared := shared + [v1]; }
    if v2 in face1 { shared := shared + [v2]; }
    ghost var corners := SharedCorners(m, f0, f1);
    SharedCornersByCase(m, f0, f1);
    CountCorners(corners, v0 in face1, v1 in face1, v2 in face1);
    if |shared| != 2 {
      return Err(SharedVertCount(|shared|));
    }
    r := Ok((shared[0], shared[|shared| - 1]));
    if v0 !in face1 {
      assert corners == {1, 2} && r.value == (face0[1], face0[2]);
    } else if v1 !in face1 {
      assert corners == {0, 2} && r.value == (face0[0], face0[2]);
    } else {
      assert corners == {0, 1} && r.value == (face0[0], face0[1]);
    }
  }
}
