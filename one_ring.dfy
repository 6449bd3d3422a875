/**
 * The ordered one-ring of a vertex: its adjacent vertices, incident faces,
 * incident edges and link edges, collected in counter-clockwise winding order
 * by walking from face to face across the edges around the vertex.
 *
 * OneRingOf is the walk as a function of the mesh; VertOrderedOneRing is the
 * walk as the original loop, proved to compute it; the projections return one
 * of the four sequences each.
 */
module OneRingWalk {
  import opened Wrappers
  import opened SurfaceMesh

  /** The four outputs of the walk, in winding order. */
  datatype OneRing = OneRing(
    vRing: seq<nat>,  // adjacent vertices
    fRing: seq<nat>,  // incident faces
    eRing: seq<nat>,  // incident edges
    eLink: seq<nat>)  // edges opposite the centre vertex

  const EmptyRing := OneRing([], [], [], [])

  /** The walk's variables at the top of a round: what is collected, and the current edge, face and vertex. */
  datatype WalkState = WalkState(ring: OneRing, currE: nat, currF: nat, currV: nat)

  function Last(s: seq<nat>): nat
    requires |s| > 0
  {
    s[|s| - 1]
  }

  // ---------------------------------------------------------------------------
  // Facts extracted from well-formedness

  lemma FaceOfEdge(m: Mesh, e: nat, f: nat)
    requires WellFormed(m) && e < |m.edgeVerts| && f in m.adjE2F[e]
    ensures f < |m.faceVerts|
    ensures m.edgeVerts[e].0 in m.faceVerts[f] && m.edgeVerts[e].1 in m.faceVerts[f]
  {
    var i :| 0 <= i < |m.adjE2F[e]| && m.adjE2F[e][i] == f;
  }

  lemma EdgeOfFace(m: Mesh, f: nat, e: nat)
    requires WellFormed(m) && f < |m.faceVerts| && e in m.adjF2E[f]
    ensures e < |m.edgeVerts| && f in m.adjE2F[e]
  {
    var k :| 0 <= k < |m.adjF2E[f]| && m.adjF2E[f][k] == e;
  }

  lemma ModSmall(a: int, n: int)
    requires 0 <= a < n
    ensures a % n == a
  {
  }

  // ---------------------------------------------------------------------------
  // One round of the walk

  /** The face on the other side of edge e from face f (f itself when e has one face). */
  function NextFace(m: Mesh, e: nat, f: nat): nat
    requires e < |m.adjE2F| && |m.adjE2F[e]| > 0
  {
    if m.adjE2F[e][0] == f then Last(m.adjE2F[e]) else m.adjE2F[e][0]
  }

  /** Corner k of face fid, counted cyclically. */
  function Corner(m: Mesh, fid: nat, k: nat): (v: nat)
    requires fid < |m.faceVerts| && |m.faceVerts[fid]| >= 1
    ensures v in m.faceVerts[fid]
  {
    m.faceVerts[fid][k % |m.faceVerts[fid]|]
  }

  /** The vertices the inner loop visits in face fid from offset off: the whole cycle but its last entry. */
  function Sweep(m: Mesh, fid: nat, off: nat): seq<nat>
    requires fid < |m.faceVerts| && |m.faceVerts[fid]| >= 1
  {
    var ws := seq(|m.faceVerts[fid]| - 1, i requires 0 <= i < |m.faceVerts[fid]| - 1 => Corner(m, fid, off + i));
    assert forall k :: 0 <= k < |ws| ==> ws[k] == Corner(m, fid, off + k);
    ws
  }


  /** The link edges of face fid joining each visited vertex to the one before it; None when one is missing. */
  function Links(m: Mesh, fid: nat, ws: seq<nat>): Option<seq<nat>>
    requires FaceEdgesExist(m, fid)
    decreases |ws|
  {
    if |ws| <= 1 then Some([])
    else
      match Links(m, fid, ws[..|ws| - 1])
      case None => None
      case Some(l) =>
        match FaceEdgeId(m, fid, ws[|ws| - 1], ws[|ws| - 2])
        case None => None
        case Some(e) => Some(l + [e])
  }

  /** Found link edges are one per consecutive pair of visited vertices, each an edge joining the pair. */
  lemma {:induction false} LinksJoin(m: Mesh, fid: nat, ws: seq<nat>)
    requires FaceEdgesExist(m, fid) && Links(m, fid, ws).Some?
    ensures var r := Links(m, fid, ws).value;
      |r| == (if |ws| == 0 then 0 else |ws| - 1) &&
      forall k :: 0 <= k < |r| ==>
        r[k] < |m.edgeVerts| && EdgeContainsVert(m, r[k], ws[k]) && EdgeContainsVert(m, r[k], ws[k + 1])
    decreases |ws|
  {
    if |ws| > 1 {
      var p := ws[..|ws| - 1];
      LinksJoin(m, fid, p);
      assert forall k :: 0 <= k < |p| ==> p[k] == ws[k];
    }
  }

  /** Extending a sweep prefix by one vertex adds the link edge to the previous vertex. */
  lemma LinksSnoc(m: Mesh, fid: nat, ws: seq<nat>, i: nat)
    requires FaceEdgesExist(m, fid) && 1 <= i < |ws|
    ensures Links(m, fid, ws[..i + 1]) ==
      match Links(m, fid, ws[..i])
      case None => None
      case Some(l) =>
        match FaceEdgeId(m, fid, ws[i], ws[i - 1])
        case None => None
        case Some(e) => Some(l + [e])
  {
    assert ws[..i + 1][..i] == ws[..i];
  }

  /** Once a prefix misses a link edge, so does every extension of it. */
  lemma {:induction false} LinksMissingPrefix(m: Mesh, fid: nat, ws: seq<nat>, k: nat)
    requires FaceEdgesExist(m, fid) && k <= |ws|
    requires Links(m, fid, ws[..k]).None?
    ensures Links(m, fid, ws).None?
    decreases |ws| - k
  {
    if k < |ws| {
      assert ws[..k + 1][..k] == ws[..k];
      LinksMissingPrefix(m, fid, ws, k + 1);
    } else {
      assert ws[..k] == ws;
    }
  }

  /** The current edge is an edge at vid, the current face one of its faces, and the current vertex its far end. */
  predicate Positioned(m: Mesh, vid: nat, s: WalkState) {
    |m.adjE2F| == |m.edgeVerts| &&
    s.currE < |m.edgeVerts| && EdgeContainsVert(m, s.currE, vid) && EdgeContainsVert(m, s.currE, s.currV) &&
    s.currF in m.adjE2F[s.currE]
  }

  /** The loop variables entering a round, on a well-formed mesh. */
  ghost predicate Pending(m: Mesh, vid: nat, s: WalkState) {
    WellFormed(m) && vid < |m.adjV2E| && Positioned(m, vid, s)
  }

  /**
   * The state after a round over face s.currF that swept ws, found the link
   * edges links, and leaves through edge e: all swept vertices but the last
   * join the ring, and the last becomes the current vertex.
   */
  function Advance(m: Mesh, s: WalkState, ws: seq<nat>, links: seq<nat>, e: nat): WalkState
    requires |ws| > 0 && e < |m.adjE2F| && |m.adjE2F[e]| > 0
  {
    var eRing := s.ring.eRing + [s.currE] + (if EdgeIsBoundary(m, e) then [e] else []);
    WalkState(OneRing(s.ring.vRing + ws[..|ws| - 1], s.ring.fRing + [s.currF], eRing, s.ring.eLink + links),
              e, NextFace(m, e, s.currF), Last(ws))
  }

  /**
   * What a round needs of its state without the rest of the mesh: the current
   * face exists, has at least two corners including the current vertex, and
   * its edges exist and have faces.
   */
  ghost predicate Ready(m: Mesh, s: WalkState) {
    |m.adjE2F| == |m.edgeVerts| &&
    s.currF < |m.faceVerts| && |m.faceVerts[s.currF]| >= 2 && s.currV in m.faceVerts[s.currF] &&
    FaceEdgesExist(m, s.currF) &&
    forall e :: e in m.adjF2E[s.currF] ==> e < |m.adjE2F| && |m.adjE2F[e]| > 0
  }

  /**
   * One round of the loop: record the current edge and face, sweep the face
   * from the current vertex collecting ring vertices and link edges, then cross
   * the edge between vid and the last swept vertex into the next face.
   */
  function Round(m: Mesh, vid: nat, s: WalkState): Result<WalkState, TopologyError>
    requires Ready(m, s)
  {
    var f := s.currF;
    var ws := Sweep(m, f, FaceVertOffset(m, f, s.currV));
    match Links(m, f, ws)
    case None => Err(MissingFaceEdge(f))
    case Some(links) =>
      match FaceEdgeId(m, f, vid, Last(ws))
      case None => Err(MissingFaceEdge(f))
      case Some(e) =>
        if !EdgeIsManifold(m, e) then Err(NonManifoldEdge(e))
        else Ok(Advance(m, s, ws, links, e))
  }

  /** A pending state is ready for a round. */
  lemma ReadyOfPending(m: Mesh, vid: nat, s: WalkState)
    requires Pending(m, vid, s)
    ensures Ready(m, s)
  {
    FaceOfEdge(m, s.currE, s.currF);
    forall e | e in m.adjF2E[s.currF]
      ensures e < |m.adjE2F| && |m.adjE2F[e]| > 0
    {
      EdgeOfFace(m, s.currF, e);
    }
  }

  /** A round from a pending state, which leaves a pending state with one or two more edge entries. */
  ghost function FaceStep(m: Mesh, vid: nat, s: WalkState): (r: Result<WalkState, TopologyError>)
    requires Pending(m, vid, s)
    ensures r.Ok? ==> Pending(m, vid, r.value)
    ensures r.Ok? ==> |s.ring.eRing| < |r.value.ring.eRing| <= |s.ring.eRing| + 2
  {
    ReadyOfPending(m, vid, s);
    Round(m, vid, s)
  }

  /** What a successful round over face s.currF guarantees about its sweep ws, its link edges and its exit edge e. */
  ghost predicate Pieces(m: Mesh, vid: nat, s: WalkState, ws: seq<nat>, links: seq<nat>, e: nat) {
    s.currF < |m.faceVerts| && |m.faceVerts[s.currF]| >= 3 && vid in m.faceVerts[s.currF] &&
    |ws| == |m.faceVerts[s.currF]| - 1 && ws[0] == s.currV && ws[0] in m.faceVerts[s.currF] &&
    |links| == |ws| - 1 &&
    (forall k :: 0 <= k < |links| ==>
      links[k] < |m.edgeVerts| && EdgeContainsVert(m, links[k], ws[k]) && EdgeContainsVert(m, links[k], ws[k + 1])) &&
    |m.adjE2F| == |m.edgeVerts| &&
    e < |m.edgeVerts| && EdgeIsManifold(m, e) && s.currF in m.adjE2F[e] &&
    EdgeContainsVert(m, e, vid) && EdgeContainsVert(m, e, Last(ws)) &&
    (!EdgeIsBoundary(m, e) ==> NextFace(m, e, s.currF) != s.currF) &&
    (|ws| == 2 ==>
      ws[1] in m.faceVerts[s.currF] && VertsAreOrderedCCW(m, s.currF, ws[1], ws[0]))
  }

  /** A successful round is an Advance by its sweep, its link edges and an exit edge of the face joining vid and the last swept vertex. */
  lemma RoundParts(m: Mesh, vid: nat, s: WalkState) returns (ws: seq<nat>, links: seq<nat>, e: nat)
    requires Ready(m, s) && Round(m, vid, s).Ok?
    ensures ws == Sweep(m, s.currF, FaceVertOffset(m, s.currF, s.currV))
    ensures |ws| == |m.faceVerts[s.currF]| - 1 && ws[0] == s.currV
    ensures |links| == |ws| - 1 && forall k :: 0 <= k < |links| ==>
      links[k] < |m.edgeVerts| && EdgeContainsVert(m, links[k], ws[k]) && EdgeContainsVert(m, links[k], ws[k + 1])
    ensures e in m.adjF2E[s.currF] && e < |m.edgeVerts| && EdgeIsManifold(m, e)
    ensures EdgeContainsVert(m, e, vid) && EdgeContainsVert(m, e, Last(ws))
    ensures Round(m, vid, s).value == Advance(m, s, ws, links, e)
  {
    var f := s.currF;
    var off := FaceVertOffset(m, f, s.currV);
    ws := Sweep(m, f, off);
    ModSmall(off, |m.faceVerts[f]|);
    links := Links(m, f, ws).value;
    LinksJoin(m, f, ws);
    e := FaceEdgeId(m, f, vid, Last(ws)).value;
  }

  /** Across an interior manifold edge, the next face is the other one. */
  lemma OtherFace(m: Mesh, e: nat, f: nat)
    requires WellFormed(m) && e < |m.edgeVerts| && f in m.adjE2F[e]
    requires EdgeIsManifold(m, e) && !EdgeIsBoundary(m, e)
    ensures NextFace(m, e, f) != f
  {
    if m.adjE2F[e][0] == f {
      NoRepeatsAt(m.adjE2F[e], 0, 1);
    }
  }

  /** In a triangle, the second swept vertex follows the first counter-clockwise. */
  lemma TriangleSweepCCW(m: Mesh, f: nat, v: nat)
    requires WellFormed(m) && f < |m.faceVerts| && |m.faceVerts[f]| == 3 && v in m.faceVerts[f]
    ensures |Sweep(m, f, FaceVertOffset(m, f, v))| == 2
    ensures Sweep(m, f, FaceVertOffset(m, f, v))[1] in m.faceVerts[f]
    ensures VertsAreOrderedCCW(m, f, Sweep(m, f, FaceVertOffset(m, f, v))[1], v)
  {
    var off := FaceVertOffset(m, f, v);
    var ws := Sweep(m, f, off);
    assert ws[1] == m.faceVerts[f][(off + 1) % 3];
    OffsetOfCorner(m, f, (off + 1) % 3);
  }

  /** A successful round is an Advance by pieces satisfying Pieces. */
  lemma StepShape(m: Mesh, vid: nat, s: WalkState) returns (ws: seq<nat>, links: seq<nat>, e: nat)
    requires Pending(m, vid, s) && FaceStep(m, vid, s).Ok?
    ensures Pieces(m, vid, s, ws, links, e)
    ensures FaceStep(m, vid, s).value == Advance(m, s, ws, links, e)
  {
    ReadyOfPending(m, vid, s);
    ws, links, e := RoundParts(m, vid, s);
    FaceOfEdge(m, s.currE, s.currF);
    EdgeOfFace(m, s.currF, e);
    if !EdgeIsBoundary(m, e) {
      OtherFace(m, e, s.currF);
    }
    if |m.faceVerts[s.currF]| == 3 {
      TriangleSweepCCW(m, s.currF, s.currV);
    }
  }

  // ---------------------------------------------------------------------------
  // What the walk keeps true of what it has collected

  /** Sum over the faces of (number of corners - 2): the ring vertices and link edges each face contributes. */
  ghost function InnerCount(m: Mesh, fs: seq<nat>): nat
    requires forall k :: 0 <= k < |fs| ==> fs[k] < |m.faceVerts| && |m.faceVerts[fs[k]]| >= 2
  {
    if fs == [] then 0 else InnerCount(m, fs[..|fs| - 1]) + |m.faceVerts[Last(fs)]| - 2
  }

  /** Recorded faces and edges are incident to vid; link edge k touches ring vertex k. */
  ghost predicate RingIncidence(m: Mesh, vid: nat, ring: OneRing) {
    (forall k :: 0 <= k < |ring.fRing| ==>
      ring.fRing[k] < |m.faceVerts| && |m.faceVerts[ring.fRing[k]]| >= 3 && vid in m.faceVerts[ring.fRing[k]]) &&
    (forall k :: 0 <= k < |ring.eRing| ==> ring.eRing[k] < |m.edgeVerts| && EdgeContainsVert(m, ring.eRing[k], vid)) &&
    |ring.vRing| == |ring.eLink| &&
    (forall k :: 0 <= k < |ring.eLink| ==>
      ring.eLink[k] < |m.edgeVerts| && EdgeContainsVert(m, ring.eLink[k], ring.vRing[k]))
  }

  /** Each face adds |face| - 2 ring vertices, one face entry, and one or two edge entries. */
  ghost predicate RingSizes(m: Mesh, vid: nat, ring: OneRing)
    requires RingIncidence(m, vid, ring)
  {
    |ring.vRing| == InnerCount(m, ring.fRing) &&
    |ring.fRing| <= |ring.eRing| <= 2 * |ring.fRing|
  }

  /**
   * Without boundary edge entries, face k is incident to edge k, and
   * consecutive faces are distinct and both incident to the edge between them.
   */
  ghost predicate Chained(m: Mesh, vid: nat, ring: OneRing)
    requires |m.adjE2F| == |m.edgeVerts| && RingIncidence(m, vid, ring)
  {
    |ring.eRing| == |ring.fRing| ==>
      forall k :: 0 <= k < |ring.fRing| ==>
        ring.fRing[k] in m.adjE2F[ring.eRing[k]] &&
        (k > 0 ==> ring.fRing[k - 1] in m.adjE2F[ring.eRing[k]] && ring.fRing[k - 1] != ring.fRing[k])
  }

  /** On triangles: ring vertex k is a corner of face k, and the next ring vertex follows it counter-clockwise there. */
  ghost predicate TriWinding(m: Mesh, vid: nat, ring: OneRing)
    requires RingIncidence(m, vid, ring)
  {
    |ring.vRing| == |ring.fRing| &&
    forall k :: 0 <= k < |ring.fRing| ==>
      ring.vRing[k] in m.faceVerts[ring.fRing[k]] &&
      (k + 1 < |ring.vRing| ==>
        ring.vRing[k + 1] in m.faceVerts[ring.fRing[k]] &&
        VertsAreOrderedCCW(m, ring.fRing[k], ring.vRing[k + 1], ring.vRing[k]))
  }

  /** How the pending edge, face and vertex continue what was collected. */
  ghost predicate Continues(m: Mesh, vid: nat, s: WalkState)
    requires Positioned(m, vid, s) && RingIncidence(m, vid, s.ring)
  {
    |s.ring.fRing| > 0 ==>
      Last(s.ring.fRing) in m.adjE2F[s.currE] &&
      (!EdgeIsBoundary(m, s.currE) ==> Last(s.ring.fRing) != s.currF) &&
      (|s.ring.eRing| == |s.ring.fRing| ==> !EdgeIsBoundary(m, s.currE)) &&
      (IsTrimesh(m) ==>
        |s.ring.vRing| > 0 &&
        s.currV in m.faceVerts[Last(s.ring.fRing)] && Last(s.ring.vRing) in m.faceVerts[Last(s.ring.fRing)] &&
        VertsAreOrderedCCW(m, Last(s.ring.fRing), s.currV, Last(s.ring.vRing)))
  }

  /** Link edge k also touches ring vertex k + 1, so consecutive ring vertices are joined by their link edge. */
  ghost predicate LinkChain(m: Mesh, vid: nat, ring: OneRing)
    requires RingIncidence(m, vid, ring)
  {
    forall k :: 0 <= k && k + 1 < |ring.vRing| ==> EdgeContainsVert(m, ring.eLink[k], ring.vRing[k + 1])
  }

  /** The chain of link edges so far, whose last edge reaches the current vertex. */
  ghost predicate Linked(m: Mesh, vid: nat, s: WalkState)
    requires RingIncidence(m, vid, s.ring)
  {
    LinkChain(m, vid, s.ring) &&
    (|s.ring.eLink| > 0 ==> EdgeContainsVert(m, Last(s.ring.eLink), s.currV))
  }

  ghost predicate StateInv(m: Mesh, vid: nat, s: WalkState) {
    Pending(m, vid, s) && RingIncidence(m, vid, s.ring) && RingSizes(m, vid, s.ring) &&
    Chained(m, vid, s.ring) && Continues(m, vid, s) && Linked(m, vid, s) &&
    (IsTrimesh(m) ==> TriWinding(m, vid, s.ring)) &&
    (|BoundaryEdgesOf(m, vid)| == 0 ==> |s.ring.eRing| == |s.ring.fRing|)
  }

  lemma StepIncidence(m: Mesh, vid: nat, s: WalkState, ws: seq<nat>, links: seq<nat>, e: nat)
    requires Positioned(m, vid, s) && RingIncidence(m, vid, s.ring) && RingSizes(m, vid, s.ring)
    requires Pieces(m, vid, s, ws, links, e)
    ensures RingIncidence(m, vid, Advance(m, s, ws, links, e).ring)
    ensures RingSizes(m, vid, Advance(m, s, ws, links, e).ring)
  {
    var ring := Advance(m, s, ws, links, e).ring;
    assert ring.fRing[..|ring.fRing| - 1] == s.ring.fRing;
    forall k | 0 <= k < |ring.eLink|
      ensures ring.eLink[k] < |m.edgeVerts| && EdgeContainsVert(m, ring.eLink[k], ring.vRing[k])
    {
      if k >= |s.ring.eLink| {
        var j := k - |s.ring.eLink|;
        assert ring.eLink[k] == links[j] && ring.vRing[k] == ws[j];
      }
    }
  }

  lemma StepLinks(m: Mesh, vid: nat, s: WalkState, ws: seq<nat>, links: seq<nat>, e: nat)
    requires RingIncidence(m, vid, s.ring) && Linked(m, vid, s) && Pieces(m, vid, s, ws, links, e)
    requires RingIncidence(m, vid, Advance(m, s, ws, links, e).ring)
    ensures Linked(m, vid, Advance(m, s, ws, links, e))
  {
    var ring := Advance(m, s, ws, links, e).ring;
    var p := |s.ring.vRing|;
    forall k | 0 <= k && k + 1 < |ring.vRing|
      ensures EdgeContainsVert(m, ring.eLink[k], ring.vRing[k + 1])
    {
      if k + 1 < p {
        assert ring.eLink[k] == s.ring.eLink[k] && ring.vRing[k + 1] == s.ring.vRing[k + 1];
      } else if k + 1 == p {
        assert ring.eLink[k] == Last(s.ring.eLink) && ring.vRing[k + 1] == ws[0];
      } else {
        var j := k - p;
        assert ring.eLink[k] == links[j] && ring.vRing[k + 1] == ws[j + 1];
      }
    }
    assert Last(ring.eLink) == links[|links| - 1];
  }

  lemma StepChain(m: Mesh, vid: nat, s: WalkState, ws: seq<nat>, links: seq<nat>, e: nat)
    requires Positioned(m, vid, s) && RingIncidence(m, vid, s.ring) && RingSizes(m, vid, s.ring)
    requires Chained(m, vid, s.ring) && Continues(m, vid, s) && Pieces(m, vid, s, ws, links, e)
    requires RingIncidence(m, vid, Advance(m, s, ws, links, e).ring)
    ensures Chained(m, vid, Advance(m, s, ws, links, e).ring)
  {
    var ring := Advance(m, s, ws, links, e).ring;
    if |ring.eRing| == |ring.fRing| {
      var n := |s.ring.fRing|;
      assert |s.ring.eRing| == n && !EdgeIsBoundary(m, e);
      assert ring.fRing == s.ring.fRing + [s.currF] && ring.eRing == s.ring.eRing + [s.currE];
      forall k | 0 <= k < |ring.fRing|
        ensures ring.fRing[k] in m.adjE2F[ring.eRing[k]]
        ensures k > 0 ==> ring.fRing[k - 1] in m.adjE2F[ring.eRing[k]] && ring.fRing[k - 1] != ring.fRing[k]
      {
        if k < n {
          assert ring.fRing[k] == s.ring.fRing[k] && ring.eRing[k] == s.ring.eRing[k];
          if k > 0 {
            assert ring.fRing[k - 1] == s.ring.fRing[k - 1];
          }
        } else if k > 0 {
          assert ring.fRing[k - 1] == Last(s.ring.fRing);
        }
      }
    }
  }

  lemma StepInterior(m: Mesh, vid: nat, s: WalkState, ws: seq<nat>, links: seq<nat>, e: nat)
    requires WellFormed(m) && vid < |m.adjV2E| && Pieces(m, vid, s, ws, links, e)
    ensures |BoundaryEdgesOf(m, vid)| == 0 ==> !EdgeIsBoundary(m, e)
  {
    if EdgeIsBoundary(m, e) {
      assert e in BoundaryEdgesOf(m, vid);
    }
  }

  lemma StepContinues(m: Mesh, vid: nat, s: WalkState, ws: seq<nat>, links: seq<nat>, e: nat)
    requires Positioned(m, vid, s) && RingIncidence(m, vid, s.ring) && RingSizes(m, vid, s.ring)
    requires Pieces(m, vid, s, ws, links, e)
    requires Positioned(m, vid, Advance(m, s, ws, links, e))
    requires RingIncidence(m, vid, Advance(m, s, ws, links, e).ring)
    requires IsTrimesh(m) ==> |m.faceVerts[s.currF]| == 3
    ensures Continues(m, vid, Advance(m, s, ws, links, e))
  {
    var next := Advance(m, s, ws, links, e);
    assert Last(next.ring.fRing) == s.currF;
    if IsTrimesh(m) {
      assert Last(next.ring.vRing) == s.currV;
    }
  }

  lemma StepWinding(m: Mesh, vid: nat, s: WalkState, ws: seq<nat>, links: seq<nat>, e: nat)
    requires Positioned(m, vid, s) && RingIncidence(m, vid, s.ring) && Continues(m, vid, s)
    requires TriWinding(m, vid, s.ring) && Pieces(m, vid, s, ws, links, e) && IsTrimesh(m)
    requires |m.faceVerts[s.currF]| == 3
    requires RingIncidence(m, vid, Advance(m, s, ws, links, e).ring)
    ensures TriWinding(m, vid, Advance(m, s, ws, links, e).ring)
  {
    var ring := Advance(m, s, ws, links, e).ring;
    assert ring.vRing == s.ring.vRing + [s.currV];
    assert ring.fRing == s.ring.fRing + [s.currF];
  }

  /** A round extends each collected sequence; the current face, edge and vertex come first. */
  lemma StepGrows(m: Mesh, vid: nat, s: WalkState)
    requires Pending(m, vid, s) && FaceStep(m, vid, s).Ok?
    ensures RingStarts(FaceStep(m, vid, s).value.ring, s)
    ensures FaceStep(m, vid, s).value.ring.fRing == s.ring.fRing + [s.currF]
  {
    var ws, links, e := StepShape(m, vid, s);
    var r := Advance(m, s, ws, links, e).ring;
    assert r.vRing[..|s.ring.vRing| + 1] == s.ring.vRing + [ws[0]];
    assert r.eRing[..|s.ring.eRing| + 1] == s.ring.eRing + [s.currE];
    assert r.eLink[..|s.ring.eLink|] == s.ring.eLink;
  }

  lemma StepPreserves(m: Mesh, vid: nat, s: WalkState)
    requires StateInv(m, vid, s) && FaceStep(m, vid, s).Ok?
    ensures StateInv(m, vid, FaceStep(m, vid, s).value)
  {
    var ws, links, e := StepShape(m, vid, s);
    StepIncidence(m, vid, s, ws, links, e);
    StepChain(m, vid, s, ws, links, e);
    StepLinks(m, vid, s, ws, links, e);
    StepInterior(m, vid, s, ws, links, e);
    StepContinues(m, vid, s, ws, links, e);
    if IsTrimesh(m) {
      StepWinding(m, vid, s, ws, links, e);
    }
  }

  // ---------------------------------------------------------------------------
  // The whole walk

  /** p is a prefix of r. */
  predicate Extends(r: seq<nat>, p: seq<nat>) {
    |p| <= |r| && r[..|p|] == p
  }

  /** Each collected sequence of ring starts with what state s had collected, followed by its current vertex, face and edge. */
  predicate RingStarts(ring: OneRing, s: WalkState) {
    Extends(ring.vRing, s.ring.vRing + [s.currV]) &&
    Extends(ring.fRing, s.ring.fRing + [s.currF]) &&
    Extends(ring.eRing, s.ring.eRing + [s.currE]) &&
    Extends(ring.eLink, s.ring.eLink)
  }

  lemma ExtendsTrans(r: seq<nat>, q: seq<nat>, p: seq<nat>)
    requires Extends(r, q) && Extends(q, p)
    ensures Extends(r, p)
  {
    assert r[..|p|] == r[..|q|][..|p|];
  }

  lemma RingStartsTrans(ring: OneRing, next: WalkState, s: WalkState)
    requires RingStarts(ring, next) && RingStarts(next.ring, s)
    ensures RingStarts(ring, s)
  {
    ExtendsTrans(ring.vRing, next.ring.vRing + [next.currV], next.ring.vRing);
    ExtendsTrans(ring.vRing, next.ring.vRing, s.ring.vRing + [s.currV]);
    ExtendsTrans(ring.fRing, next.ring.fRing + [next.currF], next.ring.fRing);
    ExtendsTrans(ring.fRing, next.ring.fRing, s.ring.fRing + [s.currF]);
    ExtendsTrans(ring.eRing, next.ring.eRing + [next.currE], next.ring.eRing);
    ExtendsTrans(ring.eRing, next.ring.eRing, s.ring.eRing + [s.currE]);
    ExtendsTrans(ring.eLink, next.ring.eLink, s.ring.eLink);
  }

  /** What the walk guarantees about everything it collected. */
  ghost predicate Collected(m: Mesh, vid: nat, ring: OneRing)
    requires |m.adjE2F| == |m.edgeVerts|
  {
    RingIncidence(m, vid, ring) && RingSizes(m, vid, ring) && Chained(m, vid, ring) &&
    LinkChain(m, vid, ring) && (IsTrimesh(m) ==> TriWinding(m, vid, ring))
  }

  /**
   * The do-while loop from state s: run a round, and go on while fewer edges
   * were collected than vid has.
   */
  ghost function Walk(m: Mesh, vid: nat, s: WalkState): Result<OneRing, TopologyError>
    requires StateInv(m, vid, s) && |s.ring.eRing| < |m.adjV2E[vid]|
    decreases |m.adjV2E[vid]| - |s.ring.eRing|
  {
    match FaceStep(m, vid, s)
    case Err(err) => Err(err)
    case Ok(next) =>
      StepPreserves(m, vid, s);
      if |next.ring.eRing| < |m.adjV2E[vid]| then Walk(m, vid, next) else Ok(next.ring)
  }

  /**
   * What a successful walk from s collected: it keeps the invariants, stops
   * with as many edges as vid has or one more, has exactly one edge per face
   * when vid has no boundary edge, and begins with what s had plus its
   * current vertex, face and edge.
   */
  lemma {:induction false} WalkFacts(m: Mesh, vid: nat, s: WalkState)
    requires StateInv(m, vid, s) && |s.ring.eRing| < |m.adjV2E[vid]| && Walk(m, vid, s).Ok?
    ensures Collected(m, vid, Walk(m, vid, s).value)
    ensures |m.adjV2E[vid]| <= |Walk(m, vid, s).value.eRing| <= |m.adjV2E[vid]| + 1
    ensures |BoundaryEdgesOf(m, vid)| == 0 ==>
      |Walk(m, vid, s).value.eRing| == |Walk(m, vid, s).value.fRing| == |m.adjV2E[vid]|
    ensures RingStarts(Walk(m, vid, s).value, s)
    decreases |m.adjV2E[vid]| - |s.ring.eRing|
  {
    var next := FaceStep(m, vid, s).value;
    StepPreserves(m, vid, s);
    StepGrows(m, vid, s);
    if |next.ring.eRing| < |m.adjV2E[vid]| {
      WalkFacts(m, vid, next);
      RingStartsTrans(Walk(m, vid, next).value, next, s);
    }
  }

  /** Both ends of an edge at vid are corners of each face of the edge. */
  lemma EndsInFace(m: Mesh, vid: nat, e: nat, f: nat)
    requires WellFormed(m) && e < |m.edgeVerts| && EdgeContainsVert(m, e, vid) && f in m.adjE2F[e]
    ensures f < |m.faceVerts| && vid in m.faceVerts[f] && VertOppositeTo(m, e, vid) in m.faceVerts[f]
  {
    FaceOfEdge(m, e, f);
  }

  /** The edge at vid listed at position k of its edges. */
  lemma EdgeAtVert(m: Mesh, vid: nat, k: nat)
    requires WellFormed(m) && vid < |m.adjV2E| && k < |m.adjV2E[vid]|
    ensures m.adjV2E[vid][k] < |m.edgeVerts| && EdgeContainsVert(m, m.adjV2E[vid][k], vid)
    ensures |m.adjE2F[m.adjV2E[vid][k]]| > 0
  {
  }

  /**
   * The boundary start: the front boundary edge when its front face winds
   * counter-clockwise from the far end to vid, else the back boundary edge,
   * whose front face must then wind so.
   */
  ghost function BoundaryStart(m: Mesh, vid: nat, b: seq<nat>): (r: Result<WalkState, TopologyError>)
    requires WellFormed(m) && vid < |m.adjV2E| && |b| == 2
    requires forall k :: 0 <= k < |b| ==> b[k] < |m.edgeVerts| && EdgeContainsVert(m, b[k], vid)
    ensures r.Ok? ==> r.value.ring == EmptyRing && Pending(m, vid, r.value)
    ensures r.Ok? ==> r.value.currE in b && r.value.currF == m.adjE2F[r.value.currE][0]
    ensures r.Ok? ==> r.value.currV == VertOppositeTo(m, r.value.currE, vid)
    ensures r.Ok? ==> VertsAreOrderedCCW(m, r.value.currF, r.value.currV, vid)
    ensures r.Err? <==> !CCWFront(m, vid, b[0]) && !CCWFront(m, vid, b[1])
    ensures r.Err? ==> r.error == StartFaceNotCCW(vid)
    ensures CCWFront(m, vid, b[0]) ==> r == Ok(FrontState(m, vid, b[0]))
  {
    if CCWFront(m, vid, b[0]) then Ok(FrontState(m, vid, b[0]))
    else if CCWFront(m, vid, b[1]) then Ok(FrontState(m, vid, b[1]))
    else Err(StartFaceNotCCW(vid))
  }

  /** The far end of edge e from vid is followed by vid, counter-clockwise, in the front face of e. */
  ghost predicate CCWFront(m: Mesh, vid: nat, e: nat)
    requires WellFormed(m) && e < |m.edgeVerts| && EdgeContainsVert(m, e, vid)
  {
    EndsInFace(m, vid, e, m.adjE2F[e][0]);
    VertsAreOrderedCCW(m, m.adjE2F[e][0], VertOppositeTo(m, e, vid), vid)
  }

  /** The far end of edge e from vid is followed by vid, counter-clockwise, in face f of e. */
  ghost predicate WindsAt(m: Mesh, vid: nat, e: nat, f: nat)
    requires WellFormed(m) && e < |m.edgeVerts| && EdgeContainsVert(m, e, vid) && f in m.adjE2F[e]
  {
    EndsInFace(m, vid, e, f);
    VertsAreOrderedCCW(m, f, VertOppositeTo(m, e, vid), vid)
  }

  /** Nothing collected yet; about to enter the front face of e from its far end. */
  ghost function FrontState(m: Mesh, vid: nat, e: nat): (s: WalkState)
    requires WellFormed(m) && vid < |m.adjV2E| && e < |m.edgeVerts| && EdgeContainsVert(m, e, vid)
    ensures Pending(m, vid, s) && s.ring == EmptyRing
  {
    WalkState(EmptyRing, e, m.adjE2F[e][0], VertOppositeTo(m, e, vid))
  }

  /**
   * The state entering the loop: the front edge of vid, which must be
   * manifold, with whichever of its first and last faces winds from its far
   * end to vid (the last when the first does not); replaced by the boundary
   * start when vid has boundary edges, of which there must be exactly two.
   */
  ghost function StartOf(m: Mesh, vid: nat): (r: Result<WalkState, TopologyError>)
    requires WellFormed(m) && vid < |m.adjV2E| && |m.adjV2E[vid]| > 0
    ensures r.Ok? ==> StateInv(m, vid, r.value) && r.value.ring == EmptyRing
    ensures !EdgeIsManifold(m, m.adjV2E[vid][0]) ==> r == Err(NonManifoldEdge(m.adjV2E[vid][0]))
    ensures EdgeIsManifold(m, m.adjV2E[vid][0]) && |BoundaryEdgesOf(m, vid)| == 0 ==>
      r.Ok? && r.value.currE == m.adjV2E[vid][0] &&
      r.value.currF in m.adjE2F[r.value.currE] &&
      r.value.currV == VertOppositeTo(m, r.value.currE, vid)
    ensures EdgeIsManifold(m, m.adjV2E[vid][0]) && |BoundaryEdgesOf(m, vid)| > 0 ==>
      if |BoundaryEdgesOf(m, vid)| != 2 then r == Err(BoundaryEdgeCount(|BoundaryEdgesOf(m, vid)|))
      else r == BoundaryStart(m, vid, BoundaryEdgesOf(m, vid))
  {
    EdgeAtVert(m, vid, 0);
    var front := m.adjV2E[vid][0];
    if !EdgeIsManifold(m, front) then Err(NonManifoldEdge(front))
    else
      var b := BoundaryEdgesOf(m, vid);
      if |b| == 0 then
        var v := VertOppositeTo(m, front, vid);
        var f0 := m.adjE2F[front][0];
        EndsInFace(m, vid, front, f0);
        var f := if VertsAreOrderedCCW(m, f0, v, vid) then f0 else Last(m.adjE2F[front]);
        Ok(WalkState(EmptyRing, front, f, v))
      else if |b| != 2 then Err(BoundaryEdgeCount(|b|))
      else BoundaryStart(m, vid, b)
  }

  /**
   * At a vertex without boundary edges the start face is the front face of
   * the front edge when that face winds from the far end to vid, and in any
   * case a face of that edge that winds so whenever one does.
   */
  lemma InteriorStartFace(m: Mesh, vid: nat)
    requires WellFormed(m) && vid < |m.adjV2E| && |m.adjV2E[vid]| > 0
    requires EdgeIsManifold(m, m.adjV2E[vid][0]) && |BoundaryEdgesOf(m, vid)| == 0
    ensures StartOf(m, vid).Ok? && StartOf(m, vid).value.currE == m.adjV2E[vid][0]
    ensures CCWFront(m, vid, m.adjV2E[vid][0]) ==> StartOf(m, vid).value.currF == m.adjE2F[m.adjV2E[vid][0]][0]
    ensures forall f :: f in m.adjE2F[m.adjV2E[vid][0]] && WindsAt(m, vid, m.adjV2E[vid][0], f) ==>
      WindsAt(m, vid, m.adjV2E[vid][0], StartOf(m, vid).value.currF)
  {
    EdgeAtVert(m, vid, 0);
    var e := m.adjV2E[vid][0];
    var fs := m.adjE2F[e];
    var s := StartOf(m, vid).value;
    assert s.currF == if CCWFront(m, vid, e) then fs[0] else Last(fs);
    forall f | f in fs && WindsAt(m, vid, e, f)
      ensures WindsAt(m, vid, e, s.currF)
    {
      if !CCWFront(m, vid, e) {
        assert f == fs[0] || f == Last(fs);
      }
    }
  }

  // ---------------------------------------------------------------------------
  // The one-ring

  /**
   * The ordered one-ring of vid: empty when vid has no edges, otherwise the
   * walk from the start state, or the first contract failure met.
   */
  ghost function OneRingOf(m: Mesh, vid: nat): (r: Result<OneRing, TopologyError>)
    requires WellFormed(m) && vid < |m.adjV2E|
    ensures |m.adjV2E[vid]| == 0 ==> r == Ok(EmptyRing)
    ensures |m.adjV2E[vid]| > 0 && !EdgeIsManifold(m, m.adjV2E[vid][0]) ==>
      r == Err(NonManifoldEdge(m.adjV2E[vid][0]))
    ensures |m.adjV2E[vid]| > 0 && EdgeIsManifold(m, m.adjV2E[vid][0]) &&
            |BoundaryEdgesOf(m, vid)| !in {0, 2} ==>
      r == Err(BoundaryEdgeCount(|BoundaryEdgesOf(m, vid)|))
  {
    if |m.adjV2E[vid]| == 0 then Ok(EmptyRing)
    else
      match StartOf(m, vid)
      case Err(err) => Err(err)
      case Ok(s) => Walk(m, vid, s)
  }

  /**
   * What a successful one-ring satisfies: the invariants of the walk; with
   * edges at vid, as many edge entries as vid has edges or one more, and one
   * edge entry per face when vid has no boundary edge; and it begins where the
   * start state is.
   */
  lemma OneRingFacts(m: Mesh, vid: nat)
    requires WellFormed(m) && vid < |m.adjV2E| && OneRingOf(m, vid).Ok?
    ensures Collected(m, vid, OneRingOf(m, vid).value)
    ensures |m.adjV2E[vid]| > 0 ==>
      |m.adjV2E[vid]| <= |OneRingOf(m, vid).value.eRing| <= |m.adjV2E[vid]| + 1
    ensures |m.adjV2E[vid]| > 0 && |BoundaryEdgesOf(m, vid)| == 0 ==>
      |OneRingOf(m, vid).value.eRing| == |OneRingOf(m, vid).value.fRing| == |m.adjV2E[vid]|
    ensures |m.adjV2E[vid]| > 0 ==> StartOf(m, vid).Ok? && RingStarts(OneRingOf(m, vid).value, StartOf(m, vid).value)
  {
    if |m.adjV2E[vid]| > 0 {
      WalkFacts(m, vid, StartOf(m, vid).value);
    }
  }

  /** A walk from nothing collected records the start vertex, face and edge first. */
  lemma FirstEntries(ring: OneRing, s: WalkState)
    requires RingStarts(ring, s) && s.ring == EmptyRing
    ensures |ring.vRing| > 0 && |ring.fRing| > 0 && |ring.eRing| > 0
    ensures ring.vRing[0] == s.currV && ring.fRing[0] == s.currF && ring.eRing[0] == s.currE
  {
    assert ring.vRing[..1] == [s.currV] && ring.fRing[..1] == [s.currF] && ring.eRing[..1] == [s.currE];
  }

  /**
   * At a vertex with boundary edges a successful walk starts on one of the
   * two boundary edges, in its front face, at its far end, and that face winds
   * counter-clockwise from there to vid.
   */
  lemma BoundaryRingStart(m: Mesh, vid: nat)
    requires WellFormed(m) && vid < |m.adjV2E| && |BoundaryEdgesOf(m, vid)| > 0 && OneRingOf(m, vid).Ok?
    ensures var ring := OneRingOf(m, vid).value;
      |BoundaryEdgesOf(m, vid)| == 2 &&
      |ring.eRing| > 0 && |ring.fRing| > 0 && |ring.vRing| > 0 &&
      ring.eRing[0] in BoundaryEdgesOf(m, vid) && EdgeIsBoundary(m, ring.eRing[0]) &&
      ring.fRing[0] == m.adjE2F[ring.eRing[0]][0] &&
      ring.vRing[0] == VertOppositeTo(m, ring.eRing[0], vid) &&
      ring.vRing[0] in m.faceVerts[ring.fRing[0]] && vid in m.faceVerts[ring.fRing[0]] &&
      VertsAreOrderedCCW(m, ring.fRing[0], ring.vRing[0], vid) &&
      (CCWFront(m, vid, BoundaryEdgesOf(m, vid)[0]) ==> ring.eRing[0] == BoundaryEdgesOf(m, vid)[0])
  {
    EdgeAtVert(m, vid, 0);
    OneRingFacts(m, vid);
    var s := StartOf(m, vid).value;
    var b := BoundaryEdgesOf(m, vid);
    FirstEntries(OneRingOf(m, vid).value, s);
    assert s.currE == b[0] || s.currE == b[1];
    EndsInFace(m, vid, s.currE, s.currF);
  }

  /**
   * At a vertex without boundary edges a successful walk starts on its front
   * edge, in one of that edge's faces, at the edge's far end.
   */
  lemma InteriorRingStart(m: Mesh, vid: nat)
    requires WellFormed(m) && vid < |m.adjV2E| && |m.adjV2E[vid]| > 0
    requires |BoundaryEdgesOf(m, vid)| == 0 && OneRingOf(m, vid).Ok?
    ensures var ring := OneRingOf(m, vid).value;
      |ring.eRing| > 0 && |ring.fRing| > 0 && |ring.vRing| > 0 &&
      ring.eRing[0] == m.adjV2E[vid][0] && ring.fRing[0] in m.adjE2F[ring.eRing[0]] &&
      ring.vRing[0] == VertOppositeTo(m, ring.eRing[0], vid) &&
      (CCWFront(m, vid, m.adjV2E[vid][0]) ==> ring.fRing[0] == m.adjE2F[m.adjV2E[vid][0]][0]) &&
      forall f :: f in m.adjE2F[m.adjV2E[vid][0]] && WindsAt(m, vid, m.adjV2E[vid][0], f) ==>
        WindsAt(m, vid, m.adjV2E[vid][0], ring.fRing[0])
  {
    EdgeAtVert(m, vid, 0);
    OneRingFacts(m, vid);
    FirstEntries(OneRingOf(m, vid).value, StartOf(m, vid).value);
    InteriorStartFace(m, vid);
  }

  /** On a triangle mesh every face contributes exactly one ring vertex and one link edge. */
  lemma {:induction false} InnerCountTriangles(m: Mesh, fs: seq<nat>)
    requires WellFormed(m) && IsTrimesh(m) && forall k :: 0 <= k < |fs| ==> fs[k] < |m.faceVerts|
    ensures InnerCount(m, fs) == |fs|
  {
    if fs != [] {
      InnerCountTriangles(m, fs[..|fs| - 1]);
    }
  }

  /**
   * What the four outputs have in common: one face entry per visited face,
   * one link edge per ring vertex, and, on a triangle mesh, as many ring
   * vertices as faces.
   */
  lemma RingCounts(m: Mesh, vid: nat)
    requires WellFormed(m) && vid < |m.adjV2E| && OneRingOf(m, vid).Ok?
    ensures var ring := OneRingOf(m, vid).value;
      RingIncidence(m, vid, ring) &&
      (forall k :: 0 <= k && k + 1 < |ring.vRing| ==> EdgeContainsVert(m, ring.eLink[k], ring.vRing[k + 1])) &&
      |ring.vRing| == |ring.eLink| == InnerCount(m, ring.fRing) &&
      |ring.fRing| <= |ring.eRing| <= 2 * |ring.fRing| &&
      (IsTrimesh(m) ==> |ring.vRing| == |ring.fRing| == |ring.eLink|)
  {
    OneRingFacts(m, vid);
    var ring := OneRingOf(m, vid).value;
    if IsTrimesh(m) {
      InnerCountTriangles(m, ring.fRing);
    }
  }

  /** Link edge k of a one-ring joins ring vertex k to ring vertex k + 1. */
  lemma LinkEdgesJoin(m: Mesh, vid: nat)
    requires WellFormed(m) && vid < |m.adjV2E| && OneRingOf(m, vid).Ok?
    ensures var ring := OneRingOf(m, vid).value;
      |ring.eLink| == |ring.vRing| &&
      forall k :: 0 <= k < |ring.eLink| ==>
        ring.eLink[k] < |m.edgeVerts| && EdgeContainsVert(m, ring.eLink[k], ring.vRing[k]) &&
        (k + 1 < |ring.vRing| ==> EdgeContainsVert(m, ring.eLink[k], ring.vRing[k + 1]))
  {
    OneRingFacts(m, vid);
    CollectedLinks(m, vid, OneRingOf(m, vid).value);
  }

  lemma CollectedLinks(m: Mesh, vid: nat, ring: OneRing)
    requires |m.adjE2F| == |m.edgeVerts| && Collected(m, vid, ring)
    ensures |ring.eLink| == |ring.vRing| &&
      forall k :: 0 <= k < |ring.eLink| ==>
        ring.eLink[k] < |m.edgeVerts| && EdgeContainsVert(m, ring.eLink[k], ring.vRing[k]) &&
        (k + 1 < |ring.vRing| ==> EdgeContainsVert(m, ring.eLink[k], ring.vRing[k + 1]))
  {
  }

  // ---------------------------------------------------------------------------
  // The walk as a loop

  /**
   * The inner loop of a round: visit the corners of face fid from offset off
   * but the last, pushing each onto vRing and, from the second on, the link
   * edge joining it to the previous one onto eLink. None when a link edge is
   * missing; currV ends at the last corner visited.
   */
  method SweepFace(m: Mesh, fid: nat, off: nat, vRing: seq<nat>, eLink: seq<nat>)
    returns (r: Option<(seq<nat>, seq<nat>)>, currV: nat)
    requires FaceEdgesExist(m, fid) && fid < |m.faceVerts| && 2 <= |m.faceVerts[fid]| && off < |m.faceVerts[fid]|
    ensures r.None? <==> Links(m, fid, Sweep(m, fid, off)).None?
    ensures r.Some? ==> r.value == (vRing + Sweep(m, fid, off), eLink + Links(m, fid, Sweep(m, fid, off)).value)
    ensures r.Some? ==> currV == Last(Sweep(m, fid, off))
  {
    var n := |m.faceVerts[fid]|;
    ghost var ws := Sweep(m, fid, off);
    var vs, ls := vRing, eLink;
    currV := 0;
    for i := 0 to n - 1
      invariant vs == vRing + ws[..i]
      invariant Links(m, fid, ws[..i]).Some? && ls == eLink + Links(m, fid, ws[..i]).value
      invariant i > 0 ==> currV == ws[i - 1]
    {
      currV := Corner(m, fid, off + i);
      assert currV == ws[i];
      assert ws[..i + 1] == ws[..i] + [currV];
      if i > 0 {
        assert Last(vs) == ws[i - 1];
        var link := FaceEdgeId(m, fid, currV, Last(vs));
        LinksSnoc(m, fid, ws, i);
        if link.None? {
          LinksMissingPrefix(m, fid, ws, i + 1);
          return None, currV;
        }
        ls := ls + [link.value];
      }
      else {
        assert Links(m, fid, ws[..1]) == Some([]);
      }
      vs := vs + [currV];
    }
    assert ws[..n - 1] == ws;
    return Some((vs, ls)), currV;
  }

  /**
   * The body of the do-while loop: push the current edge and face, sweep the
   * face, find the edge from vid to the last swept vertex, cross it to the
   * next face, pop the last swept vertex, and push the new edge again when it
   * is a boundary edge.
   */
  method WalkRound(m: Mesh, vid: nat, vRing: seq<nat>, fRing: seq<nat>, eRing: seq<nat>, eLink: seq<nat>,
                   currE: nat, currF: nat, currV: nat)
    returns (r: Result<WalkState, TopologyError>)
    requires Ready(m, WalkState(OneRing(vRing, fRing, eRing, eLink), currE, currF, currV))
    ensures r == Round(m, vid, WalkState(OneRing(vRing, fRing, eRing, eLink), currE, currF, currV))
  {
    var vs, fs, es, ls := vRing, fRing, eRing, eLink;
    es := es + [currE];
    fs := fs + [currF];

    var off := FaceVertOffset(m, currF, currV);
    ghost var ws := Sweep(m, currF, off);
    var swept, v := SweepFace(m, currF, off, vs, ls);
    if swept.None? {
      return Err(MissingFaceEdge(currF));
    }
    vs, ls := swept.value.0, swept.value.1;

    assert Last(vs) == Last(ws);
    var next := FaceEdgeId(m, currF, vid, Last(vs));
    if next.None? {
      return Err(MissingFaceEdge(currF));
    }
    var e := next.value;
    if !EdgeIsManifold(m, e) {
      return Err(NonManifoldEdge(e));
    }
    var f := if m.adjE2F[e][0] == currF then Last(m.adjE2F[e]) else m.adjE2F[e][0];
    vs := vs[..|vs| - 1];
    if EdgeIsBoundary(m, e) {
      es := es + [e];
    }
    assert vs == vRing + ws[..|ws| - 1];
    ghost var s := WalkState(OneRing(vRing, fRing, eRing, eLink), currE, currF, currV);
    ghost var adv := Advance(m, s, ws, Links(m, currF, ws).value, e);
    assert adv == WalkState(OneRing(vs, fs, es, ls), e, f, v);
    return Ok(WalkState(OneRing(vs, fs, es, ls), e, f, v));
  }


  /**
   * Where the loop starts: the front edge of vid (which must be manifold),
   * its far end, and whichever of its first and last faces winds from there
   * to vid; when vid has boundary edges, there must be two, and the start
   * moves to the first of them whose front face winds so.
   */
  method WalkStart(m: Mesh, vid: nat) returns (r: Result<WalkState, TopologyError>)
    requires WellFormed(m) && vid < |m.adjV2E| && |m.adjV2E[vid]| > 0
    ensures r == StartOf(m, vid)
  {
    EdgeAtVert(m, vid, 0);
    var currE: nat := m.adjV2E[vid][0];
    if !EdgeIsManifold(m, currE) {
      return Err(NonManifoldEdge(currE));
    }
    var currV: nat := VertOppositeTo(m, currE, vid);
    var currF: nat := m.adjE2F[currE][0];
    EndsInFace(m, vid, currE, currF);
    if !VertsAreOrderedCCW(m, currF, currV, vid) {
      currF := Last(m.adjE2F[currE]);
    }
    var bEdges := VertBoundaryEdges(m, vid);
    if |bEdges| > 0 {
      if |bEdges| != 2 {
        return Err(BoundaryEdgeCount(|bEdges|));
      }
      var e := bEdges[0];
      var f := m.adjE2F[e][0];
      var v := VertOppositeTo(m, e, vid);
      EndsInFace(m, vid, e, f);
      if !VertsAreOrderedCCW(m, f, v, vid) {
        e := bEdges[1];
        f := m.adjE2F[e][0];
        v := VertOppositeTo(m, e, vid);
        EndsInFace(m, vid, e, f);
        if !VertsAreOrderedCCW(m, f, v, vid) {
          return Err(StartFaceNotCCW(vid));
        }
      }
      currE, currF, currV := e, f, v;
    }
    return Ok(WalkState(EmptyRing, currE, currF, currV));
  }

  /**
   * The ordered one-ring of vid, collected the way the original loop does:
   * the four outputs start empty, each round pushes the current edge and
   * face, sweeps the face pushing ring vertices and link edges, crosses to
   * the next face, pops the last swept vertex, and pushes the new edge again
   * when it is a boundary edge.
   */
  method VertOrderedOneRing(m: Mesh, vid: nat) returns (r: Result<OneRing, TopologyError>)
    requires WellFormed(m) && vid < |m.adjV2E|
    ensures r == OneRingOf(m, vid)
  {
    var vRing: seq<nat>, fRing: seq<nat>, eRing: seq<nat>, eLink: seq<nat> := [], [], [], [];
    if |m.adjV2E[vid]| == 0 {
      return Ok(OneRing(vRing, fRing, eRing, eLink));
    }
    var start := WalkStart(m, vid);
    if start.Err? {
      return Err(start.error);
    }
    var currE, currF, currV := start.value.currE, start.value.currF, start.value.currV;
    ghost var s := WalkState(OneRing(vRing, fRing, eRing, eLink), currE, currF, currV);

    while true
      invariant s == WalkState(OneRing(vRing, fRing, eRing, eLink), currE, currF, currV)
      invariant StateInv(m, vid, s) && |eRing| < |m.adjV2E[vid]|
      invariant Walk(m, vid, s) == OneRingOf(m, vid)
      decreases |m.adjV2E[vid]| - |eRing|
    {
      ReadyOfPending(m, vid, s);
      var round := WalkRound(m, vid, vRing, fRing, eRing, eLink, currE, currF, currV);
      if round.Err? {
        return Err(round.error);
      }
      StepPreserves(m, vid, s);
      var next := round.value;
      vRing, fRing, eRing, eLink := next.ring.vRing, next.ring.fRing, next.ring.eRing, next.ring.eLink;
      currE, currF, currV := next.currE, next.currF, next.currV;
      s := next;
      if |eRing| >= |m.adjV2E[vid]| {
        return Ok(OneRing(vRing, fRing, eRing, eLink));
      }
    }
  }

  // ---------------------------------------------------------------------------
  // The four projections

  /** The ordered ring of vertices around vid, each the end of the link edge at the same position. */
  method VertOrderedVertRing(m: Mesh, vid: nat) returns (r: Result<seq<nat>, TopologyError>)
    requires WellFormed(m) && vid < |m.adjV2E|
    ensures r.Ok? <==> OneRingOf(m, vid).Ok?
    ensures r.Ok? ==> r.value == OneRingOf(m, vid).value.vRing
    ensures r.Err? ==> r.error == OneRingOf(m, vid).error
    ensures r.Ok? && IsTrimesh(m) ==> |r.value| == |OneRingOf(m, vid).value.fRing|
  {
    var ring := VertOrderedOneRing(m, vid);
    if ring.Err? {
      return Err(ring.error);
    }
    RingCounts(m, vid);
    return Ok(ring.value.vRing);
  }

  /** The ordered ring of faces around vid, each a face having vid as a corner. */
  method VertOrderedFaceRing(m: Mesh, vid: nat) returns (r: Result<seq<nat>, TopologyError>)
    requires WellFormed(m) && vid < |m.adjV2E|
    ensures r.Ok? <==> OneRingOf(m, vid).Ok?
    ensures r.Ok? ==> r.value == OneRingOf(m, vid).value.fRing
    ensures r.Err? ==> r.error == OneRingOf(m, vid).error
    ensures r.Ok? ==> forall k :: 0 <= k < |r.value| ==> r.value[k] < |m.faceVerts| && vid in m.faceVerts[r.value[k]]
  {
    var ring := VertOrderedOneRing(m, vid);
    if ring.Err? {
      return Err(ring.error);
    }
    OneRingFacts(m, vid);
    return Ok(ring.value.fRing);
  }

  /** The ordered ring of edges at vid, a boundary exit edge appearing right after the edge its face was entered by. */
  method VertOrderedEdgeRing(m: Mesh, vid: nat) returns (r: Result<seq<nat>, TopologyError>)
    requires WellFormed(m) && vid < |m.adjV2E|
    ensures r.Ok? <==> OneRingOf(m, vid).Ok?
    ensures r.Ok? ==> r.value == OneRingOf(m, vid).value.eRing
    ensures r.Err? ==> r.error == OneRingOf(m, vid).error
    ensures r.Ok? ==> forall k :: 0 <= k < |r.value| ==> r.value[k] < |m.edgeVerts| && EdgeContainsVert(m, r.value[k], vid)
    ensures r.Ok? && |m.adjV2E[vid]| > 0 ==> |m.adjV2E[vid]| <= |r.value| <= |m.adjV2E[vid]| + 1
  {
    var ring := VertOrderedOneRing(m, vid);
    if ring.Err? {
      return Err(ring.error);
    }
    OneRingFacts(m, vid);
    return Ok(ring.value.eRing);
  }

  /** The ordered link edges around vid: link edge k joins ring vertex k to ring vertex k + 1. */
  method VertOrderedEdgeLink(m: Mesh, vid: nat) returns (r: Result<seq<nat>, TopologyError>)
    requires WellFormed(m) && vid < |m.adjV2E|
    ensures r.Ok? <==> OneRingOf(m, vid).Ok?
    ensures r.Ok? ==> r.value == OneRingOf(m, vid).value.eLink
    ensures r.Err? ==> r.error == OneRingOf(m, vid).error
    ensures r.Ok? ==> |r.value| == |OneRingOf(m, vid).value.vRing| && forall k :: 0 <= k < |r.value| ==>
      r.value[k] < |m.edgeVerts| && EdgeContainsVert(m, r.value[k], OneRingOf(m, vid).value.vRing[k]) &&
      (k + 1 < |r.value| ==> EdgeContainsVert(m, r.value[k], OneRingOf(m, vid).value.vRing[k + 1]))
  {
    var ring := VertOrderedOneRing(m, vid);
    if ring.Err? {
      return Err(ring.error);
    }
    LinkEdgesJoin(m, vid);
    return Ok(ring.value.eLink);
  }
}
