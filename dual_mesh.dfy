/**
 * Connectivity of the dual of a triangle mesh. Dual vertices are the triangle
 * barycenters, then the boundary vertices, then the midpoints of the boundary
 * edges; dual faces are one polygon per admitted primal vertex, its ordered
 * ring of triangles closed, at a boundary vertex, by the last boundary edge
 * midpoint, the vertex itself and the first boundary edge midpoint.
 * Positions are symbolic: only which primal element a dual vertex stands for.
 */
module Dual {
  import opened Wrappers
  import opened SurfaceMesh
  import opened OneRingWalk

  /** What a dual vertex stands for: a triangle barycenter, a boundary vertex, or a boundary edge midpoint. */
  datatype DualPos = Bary(tid: nat) | VertPos(vid: nat) | Mid(eid: nat)

  /** Why building the dual stops: a one-ring walk failed, or a ring edge has no midpoint slot (a map lookup miss). */
  datatype DualError = RingError(err: TopologyError) | UnmappedEdge(eid: nat)

  /** The two outputs: the dual vertices and the dual polygons as indices into them. */
  datatype DualMeshData = DualMeshData(verts: seq<DualPos>, faces: seq<seq<nat>>)

  // ---------------------------------------------------------------------------
  // Slots: consecutive indices for the marked elements, in increasing order

  /** The indices below n whose flag is set, in increasing order. */
  function Marked(flags: seq<bool>, n: nat): (r: seq<nat>)
    requires n <= |flags|
    ensures |r| <= n
    ensures forall k :: 0 <= k < |r| ==> r[k] < n
  {
    if n == 0 then [] else Marked(flags, n - 1) + (if flags[n - 1] then [n - 1] else [])
  }

  /** Every listed index is below n and marked. */
  lemma {:induction false} MarkedEntries(flags: seq<bool>, n: nat)
    requires n <= |flags|
    ensures forall k :: 0 <= k < |Marked(flags, n)| ==> Marked(flags, n)[k] < n && flags[Marked(flags, n)[k]]
  {
    if n > 0 {
      MarkedEntries(flags, n - 1);
    }
  }

  /** Each marked index i below n gets slot base + (number of marked indices below i). */
  function Slots(flags: seq<bool>, n: nat, base: nat): map<nat, nat>
    requires n <= |flags|
  {
    map i: nat | i < n && flags[i] :: base + |Marked(flags, i)|
  }

  /** Marking more indices only extends the list of marked ones. */
  lemma {:induction false} MarkedPrefix(flags: seq<bool>, i: nat, n: nat)
    requires i <= n <= |flags|
    ensures |Marked(flags, i)| <= |Marked(flags, n)|
    ensures Marked(flags, n)[..|Marked(flags, i)|] == Marked(flags, i)
    decreases n - i
  {
    if i < n {
      MarkedPrefix(flags, i, n - 1);
      var p := Marked(flags, n - 1);
      assert Marked(flags, n)[..|p|] == p;
    }
  }

  /** A marked index i sits in the list at position |Marked(flags, i)|. */
  lemma MarkedAt(flags: seq<bool>, i: nat, n: nat)
    requires i < n <= |flags| && flags[i]
    ensures |Marked(flags, i)| < |Marked(flags, n)|
    ensures Marked(flags, n)[|Marked(flags, i)|] == i
  {
    MarkedPrefix(flags, i + 1, n);
    assert Marked(flags, i + 1) == Marked(flags, i) + [i];
  }

  /** Entry k of the list has exactly k marked indices below it. */
  lemma {:induction false} MarkedRank(flags: seq<bool>, n: nat, k: nat)
    requires n <= |flags| && k < |Marked(flags, n)|
    ensures |Marked(flags, Marked(flags, n)[k])| == k
  {
    var p := Marked(flags, n - 1);
    if k < |p| {
      assert Marked(flags, n)[k] == p[k];
      MarkedRank(flags, n - 1, k);
    }
  }

  /** Exactly the marked indices below n have slots. */
  lemma SlotsDomain(flags: seq<bool>, n: nat, base: nat)
    requires n <= |flags|
    ensures forall i: nat :: i in Slots(flags, n, base) <==> i < n && flags[i]
  {
  }

  /** Each slot lies in base .. base + (number of marked indices) and points back to its index in the list. */
  lemma SlotsInRange(flags: seq<bool>, n: nat, base: nat)
    requires n <= |flags|
    ensures forall i :: i in Slots(flags, n, base) ==>
      base <= Slots(flags, n, base)[i] < base + |Marked(flags, n)| &&
      Marked(flags, n)[Slots(flags, n, base)[i] - base] == i
  {
    var s := Slots(flags, n, base);
    forall i | i in s
      ensures base <= s[i] < base + |Marked(flags, n)| && Marked(flags, n)[s[i] - base] == i
    {
      MarkedAt(flags, i, n);
    }
  }

  /** Entry k of the list of marked indices gets slot base + k: the slots are consecutive. */
  lemma SlotsOfMarked(flags: seq<bool>, n: nat, base: nat)
    requires n <= |flags|
    ensures forall k :: 0 <= k < |Marked(flags, n)| ==>
      Marked(flags, n)[k] in Slots(flags, n, base) && Slots(flags, n, base)[Marked(flags, n)[k]] == base + k
  {
    var r := Marked(flags, n);
    forall k | 0 <= k < |r|
      ensures r[k] in Slots(flags, n, base) && Slots(flags, n, base)[r[k]] == base + k
    {
      MarkedRank(flags, n, k);
    }
  }

  /** Slots are handed out in increasing index order. */
  lemma SlotsIncreasing(flags: seq<bool>, n: nat, base: nat)
    requires n <= |flags|
    ensures forall i, j :: i in Slots(flags, n, base) && j in Slots(flags, n, base) && i < j ==>
      Slots(flags, n, base)[i] < Slots(flags, n, base)[j]
  {
    var s := Slots(flags, n, base);
    forall i, j | i in s && j in s && i < j
      ensures s[i] < s[j]
    {
      MarkedAt(flags, i, j);
    }
  }

  /** Slots below n + 1: those below n, plus index n at the next free slot when it is marked. */
  lemma SlotsSnoc(flags: seq<bool>, n: nat, base: nat)
    requires n < |flags|
    ensures Slots(flags, n + 1, base) ==
      if flags[n] then Slots(flags, n, base)[n := base + |Marked(flags, n)|] else Slots(flags, n, base)
  {
    var s, s' := Slots(flags, n, base), Slots(flags, n + 1, base);
    if flags[n] {
      assert s'.Keys == s.Keys + {n};
    } else {
      assert s'.Keys == s.Keys;
    }
  }

  /** The indices below n that get a dual face: all of them with clipped cells, else only the unmarked ones. */
  function Admitted(flags: seq<bool>, withClipped: bool, n: nat): (r: seq<nat>)
    requires n <= |flags|
    ensures forall k :: 0 <= k < |r| ==> r[k] < n && (withClipped || !flags[r[k]])
  {
    if n == 0 then []
    else Admitted(flags, withClipped, n - 1) + (if withClipped || !flags[n - 1] then [n - 1] else [])
  }

  /** With clipped cells every index is admitted; without, all but the marked ones. */
  lemma {:induction false} AdmittedCount(flags: seq<bool>, withClipped: bool, n: nat)
    requires n <= |flags|
    ensures withClipped ==> |Admitted(flags, withClipped, n)| == n
    ensures !withClipped ==> |Admitted(flags, withClipped, n)| == n - |Marked(flags, n)|
  {
    if n > 0 {
      AdmittedCount(flags, withClipped, n - 1);
    }
  }

  /** The admitted indices come in strictly increasing order and miss none that qualifies. */
  lemma {:induction false} AdmittedExact(flags: seq<bool>, withClipped: bool, n: nat)
    requires n <= |flags|
    ensures var adm := Admitted(flags, withClipped, n);
      (forall i, j :: 0 <= i < j < |adm| ==> adm[i] < adm[j]) &&
      forall v :: 0 <= v < n && (withClipped || !flags[v]) ==> v in adm
  {
    if n > 0 {
      AdmittedExact(flags, withClipped, n - 1);
    }
  }

  // ---------------------------------------------------------------------------
  // Laying out the dual vertices

  function Centroids(n: nat): (r: seq<DualPos>)
    ensures |r| == n && forall t :: 0 <= t < n ==> r[t] == Bary(t)
  {
    seq(n, t requires 0 <= t < n => Bary(t))
  }

  function VertPositions(vs: seq<nat>): (r: seq<DualPos>)
    ensures |r| == |vs| && forall k :: 0 <= k < |vs| ==> r[k] == VertPos(vs[k])
  {
    seq(|vs|, k requires 0 <= k < |vs| => VertPos(vs[k]))
  }

  function MidPositions(es: seq<nat>): (r: seq<DualPos>)
    ensures |r| == |es| && forall k :: 0 <= k < |es| ==> r[k] == Mid(es[k])
  {
    seq(|es|, k requires 0 <= k < |es| => Mid(es[k]))
  }

  /**
   * One step of placing marked vertices after pre: index n, when marked,
   * is appended and gets the next slot; otherwise nothing changes.
   */
  lemma PlaceVertStep(flags: seq<bool>, n: nat, pre: seq<DualPos>, verts: seq<DualPos>, slots: map<nat, nat>)
    requires n < |flags|
    requires verts == pre + VertPositions(Marked(flags, n)) && slots == Slots(flags, n, |pre|)
    ensures flags[n] ==> verts + [VertPos(n)] == pre + VertPositions(Marked(flags, n + 1))
    ensures flags[n] ==> slots[n := |verts|] == Slots(flags, n + 1, |pre|)
    ensures !flags[n] ==> verts == pre + VertPositions(Marked(flags, n + 1)) && slots == Slots(flags, n + 1, |pre|)
  {
    assert Marked(flags, n + 1) == Marked(flags, n) + (if flags[n] then [n] else []);
    SlotsSnoc(flags, n, |pre|);
  }

  /** The same step for marked edges and their midpoints. */
  lemma PlaceMidStep(flags: seq<bool>, n: nat, pre: seq<DualPos>, verts: seq<DualPos>, slots: map<nat, nat>)
    requires n < |flags|
    requires verts == pre + MidPositions(Marked(flags, n)) && slots == Slots(flags, n, |pre|)
    ensures flags[n] ==> verts + [Mid(n)] == pre + MidPositions(Marked(flags, n + 1))
    ensures flags[n] ==> slots[n := |verts|] == Slots(flags, n + 1, |pre|)
    ensures !flags[n] ==> verts == pre + MidPositions(Marked(flags, n + 1)) && slots == Slots(flags, n + 1, |pre|)
  {
    assert Marked(flags, n + 1) == Marked(flags, n) + (if flags[n] then [n] else []);
    SlotsSnoc(flags, n, |pre|);
  }

  /** t barycenters, then the marked vertices of vf, then the midpoints of the marked edges of ef. */
  function LayoutOver(t: nat, vf: seq<bool>, ef: seq<bool>): seq<DualPos>
  {
    Centroids(t) + VertPositions(Marked(vf, |vf|)) + MidPositions(Marked(ef, |ef|))
  }

  /** The layout has one entry per barycenter, marked vertex and marked edge. */
  lemma LayoutOverSize(t: nat, vf: seq<bool>, ef: seq<bool>)
    ensures |LayoutOver(t, vf, ef)| == t + |Marked(vf, |vf|)| + |Marked(ef, |ef|)|
    ensures forall i :: 0 <= i < t ==> LayoutOver(t, vf, ef)[i] == Bary(i)
  {
  }

  /** The slot of each marked vertex holds that vertex. */
  lemma LayoutOverVertSlots(t: nat, vf: seq<bool>, ef: seq<bool>)
    ensures forall i :: i in Slots(vf, |vf|, t) ==>
      t <= Slots(vf, |vf|, t)[i] < t + |Marked(vf, |vf|)| && LayoutOver(t, vf, ef)[Slots(vf, |vf|, t)[i]] == VertPos(i)
  {
    var bv := Marked(vf, |vf|);
    var s := Slots(vf, |vf|, t);
    forall i | i in s
      ensures t <= s[i] < t + |bv| && LayoutOver(t, vf, ef)[s[i]] == VertPos(i)
    {
      MarkedAt(vf, i, |vf|);
      var k := s[i] - t;
      assert LayoutOver(t, vf, ef)[t + k] == VertPositions(bv)[k];
    }
  }

  /** The slot of each marked edge, counted from base (just past the marked vertices), holds that edge's midpoint. */
  lemma LayoutOverEdgeSlots(t: nat, vf: seq<bool>, ef: seq<bool>, base: nat)
    requires base == t + |Marked(vf, |vf|)|
    ensures forall i :: i in Slots(ef, |ef|, base) ==>
      base <= Slots(ef, |ef|, base)[i] < |LayoutOver(t, vf, ef)| && LayoutOver(t, vf, ef)[Slots(ef, |ef|, base)[i]] == Mid(i)
  {
    var be := Marked(ef, |ef|);
    var s := Slots(ef, |ef|, base);
    forall i | i in s
      ensures base <= s[i] < |LayoutOver(t, vf, ef)| && LayoutOver(t, vf, ef)[s[i]] == Mid(i)
    {
      MarkedAt(ef, i, |ef|);
      var k := s[i] - base;
      assert LayoutOver(t, vf, ef)[base + k] == MidPositions(be)[k];
    }
  }

  // ---------------------------------------------------------------------------
  // Assembling the dual faces

  /** The faces of the admitted indices below n, from the per-index cells; the first failing cell stops. */
  function FacesOver(cells: seq<Result<seq<nat>, DualError>>, flags: seq<bool>, withClipped: bool, n: nat)
    : Result<seq<seq<nat>>, DualError>
    requires |cells| == |flags| && n <= |flags|
  {
    if n == 0 then Ok([])
    else
      match FacesOver(cells, flags, withClipped, n - 1)
      case Err(err) => Err(err)
      case Ok(fs) =>
        if flags[n - 1] && !withClipped then Ok(fs)
        else
          match cells[n - 1]
          case Err(err) => Err(err)
          case Ok(c) => Ok(fs + [c])
  }

  /**
   * The faces below n are the cells of the admitted indices below n, in
   * increasing order; assembling them fails exactly when one of those cells
   * fails, with the error of the first.
   */
  lemma {:induction false} FacesOfAdmitted(cells: seq<Result<seq<nat>, DualError>>, flags: seq<bool>, withClipped: bool, n: nat)
    requires |cells| == |flags| && n <= |flags|
    ensures var adm, r := Admitted(flags, withClipped, n), FacesOver(cells, flags, withClipped, n);
      (r.Ok? ==> |r.value| == |adm| && forall k :: 0 <= k < |adm| ==> cells[adm[k]] == Ok(r.value[k])) &&
      (r.Err? <==> exists k :: 0 <= k < |adm| && cells[adm[k]].Err?) &&
      (r.Err? ==> exists k :: 0 <= k < |adm| && cells[adm[k]] == Err(r.error) &&
                     forall j :: 0 <= j < k ==> cells[adm[j]].Ok?)
  {
    if n > 0 {
      FacesOfAdmitted(cells, flags, withClipped, n - 1);
      var adm := Admitted(flags, withClipped, n);
      var prev := Admitted(flags, withClipped, n - 1);
      assert forall k :: 0 <= k < |prev| ==> adm[k] == prev[k];
      if FacesOver(cells, flags, withClipped, n - 1).Ok? && |adm| > |prev| {
        assert adm[|prev|] == n - 1;
      }
    }
  }

  /** Once assembling the faces fails, the failure is the outcome for every later count. */
  lemma {:induction false} FacesErrSticks(cells: seq<Result<seq<nat>, DualError>>, flags: seq<bool>, withClipped: bool, k: nat, n: nat)
    requires |cells| == |flags| && k <= n <= |flags| && FacesOver(cells, flags, withClipped, k).Err?
    ensures FacesOver(cells, flags, withClipped, n) == FacesOver(cells, flags, withClipped, k)
    decreases n - k
  {
    if k < n {
      FacesErrSticks(cells, flags, withClipped, k, n - 1);
    }
  }

  /** One more index: a skipped index leaves the faces as they are, an admitted one appends its cell or fails with it. */
  lemma FacesSnoc(cells: seq<Result<seq<nat>, DualError>>, flags: seq<bool>, withClipped: bool, n: nat)
    requires |cells| == |flags| && n < |flags| && FacesOver(cells, flags, withClipped, n).Ok?
    ensures var fs := FacesOver(cells, flags, withClipped, n).value;
      FacesOver(cells, flags, withClipped, n + 1) ==
        if flags[n] && !withClipped then Ok(fs)
        else if cells[n].Err? then Err(cells[n].error)
        else Ok(fs + [cells[n].value])
  {
  }

  // ---------------------------------------------------------------------------
  // The dual of a mesh

  /** Which primal vertices are on the boundary, by index. */
  function VertFlags(m: Mesh): (f: seq<bool>)
    ensures |f| == |m.adjV2E|
  {
    seq(|m.adjV2E|, v requires 0 <= v < |m.adjV2E| => VertIsBoundary(m, v))
  }

  /** Which primal edges are boundary edges, by index. */
  function EdgeFlags(m: Mesh): (f: seq<bool>)
    requires |m.adjE2F| == |m.edgeVerts|
    ensures |f| == |m.edgeVerts| && forall e :: 0 <= e < |f| ==> f[e] == EdgeIsBoundary(m, e)
  {
    seq(|m.edgeVerts|, e requires 0 <= e < |m.edgeVerts| => EdgeIsBoundary(m, e))
  }

  /** The boundary vertices in increasing order. */
  ghost function BoundaryVerts(m: Mesh): seq<nat>
    requires |m.adjE2F| == |m.edgeVerts|
  {
    Marked(VertFlags(m), |m.adjV2E|)
  }

  /** The boundary edges in increasing order. */
  ghost function BoundaryEdges(m: Mesh): seq<nat>
    requires |m.adjE2F| == |m.edgeVerts|
  {
    Marked(EdgeFlags(m), |m.edgeVerts|)
  }

  /** The dual vertex list: barycenters, then boundary vertices, then boundary edge midpoints. */
  ghost function Layout(m: Mesh): seq<DualPos>
    requires |m.adjE2F| == |m.edgeVerts|
  {
    LayoutOver(|m.faceVerts|, VertFlags(m), EdgeFlags(m))
  }

  /** The slot of each boundary vertex in the dual vertex list (the v2verts map). */
  ghost function VertSlots(m: Mesh): map<nat, nat>
    requires |m.adjE2F| == |m.edgeVerts|
  {
    Slots(VertFlags(m), |m.adjV2E|, |m.faceVerts|)
  }

  /** The slot of each boundary edge midpoint in the dual vertex list (the e2verts map). */
  ghost function EdgeSlots(m: Mesh): map<nat, nat>
    requires |m.adjE2F| == |m.edgeVerts|
  {
    Slots(EdgeFlags(m), |m.edgeVerts|, |m.faceVerts| + |BoundaryVerts(m)|)
  }

  /**
   * The dual vertex list has one entry per triangle, boundary vertex and
   * boundary edge; entry t below the triangle count is triangle t's
   * barycenter; exactly the boundary vertices have vertex slots, and each
   * such slot, after the barycenters, holds its vertex.
   */
  lemma LayoutVertSlots(m: Mesh)
    requires |m.adjE2F| == |m.edgeVerts|
    ensures |Layout(m)| == |m.faceVerts| + |BoundaryVerts(m)| + |BoundaryEdges(m)|
    ensures forall t :: 0 <= t < |m.faceVerts| ==> Layout(m)[t] == Bary(t)
    ensures forall v: nat :: v in VertSlots(m) <==> v < |m.adjV2E| && VertIsBoundary(m, v)
    ensures forall v :: v in VertSlots(m) ==>
      |m.faceVerts| <= VertSlots(m)[v] < |m.faceVerts| + |BoundaryVerts(m)| && Layout(m)[VertSlots(m)[v]] == VertPos(v)
  {
    var vf, ef := VertFlags(m), EdgeFlags(m);
    assert Layout(m) == LayoutOver(|m.faceVerts|, vf, ef);
    assert VertSlots(m) == Slots(vf, |vf|, |m.faceVerts|);
    LayoutOverSize(|m.faceVerts|, vf, ef);
    LayoutOverVertSlots(|m.faceVerts|, vf, ef);
    SlotsDomain(vf, |vf|, |m.faceVerts|);
  }

  /** Exactly the boundary edges have midpoint slots, and each such slot, after the boundary vertices, holds its midpoint. */
  lemma LayoutEdgeSlots(m: Mesh)
    requires |m.adjE2F| == |m.edgeVerts|
    ensures forall e: nat :: e in EdgeSlots(m) <==> e < |m.edgeVerts| && EdgeIsBoundary(m, e)
    ensures forall e :: e in EdgeSlots(m) ==>
      |m.faceVerts| + |BoundaryVerts(m)| <= EdgeSlots(m)[e] < |Layout(m)| && Layout(m)[EdgeSlots(m)[e]] == Mid(e)
  {
    var vf, ef := VertFlags(m), EdgeFlags(m);
    var base := |m.faceVerts| + |BoundaryVerts(m)|;
    assert base == |m.faceVerts| + |Marked(vf, |vf|)|;
    var s, layout := EdgeSlots(m), Layout(m);
    assert s == Slots(ef, |ef|, base);
    assert layout == LayoutOver(|m.faceVerts|, vf, ef);
    LayoutOverEdgeSlots(|m.faceVerts|, vf, ef, base);
    SlotsDomain(ef, |ef|, base);
  }

  /** Boundary vertices get consecutive slots right after the barycenters, in increasing vertex order; likewise boundary edges after them. */
  lemma SlotOrder(m: Mesh)
    requires |m.adjE2F| == |m.edgeVerts|
    ensures forall k :: 0 <= k < |BoundaryVerts(m)| ==>
      BoundaryVerts(m)[k] in VertSlots(m) && VertSlots(m)[BoundaryVerts(m)[k]] == |m.faceVerts| + k
    ensures forall k :: 0 <= k < |BoundaryEdges(m)| ==>
      BoundaryEdges(m)[k] in EdgeSlots(m) && EdgeSlots(m)[BoundaryEdges(m)[k]] == |m.faceVerts| + |BoundaryVerts(m)| + k
    ensures forall v, w :: v in VertSlots(m) && w in VertSlots(m) && v < w ==> VertSlots(m)[v] < VertSlots(m)[w]
    ensures forall e, d :: e in EdgeSlots(m) && d in EdgeSlots(m) && e < d ==> EdgeSlots(m)[e] < EdgeSlots(m)[d]
  {
    SlotsOfMarked(VertFlags(m), |m.adjV2E|, |m.faceVerts|);
    SlotsOfMarked(EdgeFlags(m), |m.edgeVerts|, |m.faceVerts| + |BoundaryVerts(m)|);
    SlotsIncreasing(VertFlags(m), |m.adjV2E|, |m.faceVerts|);
    SlotsIncreasing(EdgeFlags(m), |m.edgeVerts|, |m.faceVerts| + |BoundaryVerts(m)|);
  }

  /** A boundary vertex has incident edges. */
  lemma BoundaryVertHasEdges(m: Mesh, vid: nat)
    requires vid < |m.adjV2E| && VertIsBoundary(m, vid)
    ensures |m.adjV2E[vid]| > 0
  {
  }

  /** A boundary vertex has a vertex slot, and a successful walk around it records at least one edge. */
  lemma BoundaryVertCellFacts(m: Mesh, vid: nat)
    requires WellFormed(m) && vid < |m.adjV2E| && VertIsBoundary(m, vid)
    ensures vid in VertSlots(m)
    ensures OneRingOf(m, vid).Ok? ==> |OneRingOf(m, vid).value.eRing| > 0
  {
    BoundaryVertHasEdges(m, vid);
    SlotsDomain(VertFlags(m), |m.adjV2E|, |m.faceVerts|);
    if OneRingOf(m, vid).Ok? {
      OneRingFacts(m, vid);
    }
  }

  /**
   * Closing the polygon of a boundary vertex: after its triangle ring come
   * the slot of the last ring edge, the vertex's own slot and the slot of
   * the first ring edge; a ring edge without a slot is an error.
   */
  function ClosedCell(fRing: seq<nat>, eRing: seq<nat>, vid: nat, vSlots: map<nat, nat>, eSlots: map<nat, nat>)
    : Result<seq<nat>, DualError>
    requires |eRing| > 0 && vid in vSlots
  {
    var back, front := Last(eRing), eRing[0];
    if back !in eSlots then Err(UnmappedEdge(back))
    else if front !in eSlots then Err(UnmappedEdge(front))
    else Ok(fRing + [eSlots[back], vSlots[vid], eSlots[front]])
  }

  /**
   * The dual polygon of vid: its ordered triangle ring and, at a boundary
   * vertex, the slots of the last ring edge, of vid and of the first ring edge.
   */
  ghost function Cell(m: Mesh, vid: nat): Result<seq<nat>, DualError>
    requires WellFormed(m) && vid < |m.adjV2E|
  {
    match OneRingOf(m, vid)
    case Err(err) => Err(RingError(err))
    case Ok(ring) =>
      if !VertIsBoundary(m, vid) then Ok(ring.fRing)
      else
        BoundaryVertCellFacts(m, vid);
        ClosedCell(ring.fRing, ring.eRing, vid, VertSlots(m), EdgeSlots(m))
  }

  /** The would-be polygon of every vertex. */
  ghost function Cells(m: Mesh): (r: seq<Result<seq<nat>, DualError>>)
    requires WellFormed(m)
    ensures |r| == |m.adjV2E| && forall v :: 0 <= v < |r| ==> r[v] == Cell(m, v)
  {
    seq(|m.adjV2E|, v requires 0 <= v < |m.adjV2E| => Cell(m, v))
  }

  /** The dual mesh of m: the layout and the polygons of the admitted vertices. */
  ghost function DualOf(m: Mesh, withClipped: bool): Result<DualMeshData, DualError>
    requires WellFormed(m)
  {
    match FacesOver(Cells(m), VertFlags(m), withClipped, |m.adjV2E|)
    case Err(err) => Err(err)
    case Ok(fs) => Ok(DualMeshData(Layout(m), fs))
  }

  /**
   * The dual has one polygon per vertex with clipped cells, and one per
   * interior vertex without them, each the cell of its vertex, in increasing
   * vertex order; building it fails exactly when an admitted vertex's cell
   * does, with the first such failure.
   */
  lemma DualFaces(m: Mesh, withClipped: bool)
    requires WellFormed(m)
    ensures var adm := Admitted(VertFlags(m), withClipped, |m.adjV2E|);
      (forall k :: 0 <= k < |adm| ==> adm[k] < |m.adjV2E| && (withClipped || !VertIsBoundary(m, adm[k]))) &&
      (DualOf(m, withClipped).Ok? ==>
        DualOf(m, withClipped).value.verts == Layout(m) &&
        (withClipped ==> |DualOf(m, withClipped).value.faces| == |m.adjV2E|) &&
        (!withClipped ==> |DualOf(m, withClipped).value.faces| == |m.adjV2E| - |BoundaryVerts(m)|) &&
        |DualOf(m, withClipped).value.faces| == |adm| &&
        forall k :: 0 <= k < |adm| ==> Cell(m, adm[k]) == Ok(DualOf(m, withClipped).value.faces[k])) &&
      (DualOf(m, withClipped).Err? ==>
        exists k :: 0 <= k < |adm| && Cell(m, adm[k]) == Err(DualOf(m, withClipped).error) &&
          forall j :: 0 <= j < k ==> Cell(m, adm[j]).Ok?)
  {
    FacesOfAdmitted(Cells(m), VertFlags(m), withClipped, |m.adjV2E|);
    AdmittedCount(VertFlags(m), withClipped, |m.adjV2E|);
  }

  /**
   * The vertices that get a dual polygon are visited in increasing order, and
   * they are exactly all vertices with clipped cells, or exactly the interior
   * ones without.
   */
  lemma DualAdmitted(m: Mesh, withClipped: bool)
    ensures var adm := Admitted(VertFlags(m), withClipped, |m.adjV2E|);
      (forall i, j :: 0 <= i < j < |adm| ==> adm[i] < adm[j]) &&
      forall v :: 0 <= v < |m.adjV2E| ==> (v in adm <==> withClipped || !VertIsBoundary(m, v))
  {
    AdmittedExact(VertFlags(m), withClipped, |m.adjV2E|);
  }

  /**
   * With every ring triangle, the vertex and every mapped edge resolving to
   * itself in the layout, a closed cell keeps the triangle ring as its prefix
   * and its three closing entries resolve to the last edge's midpoint, the
   * vertex and the first edge's midpoint.
   */
  lemma ClosedCellResolves(fRing: seq<nat>, eRing: seq<nat>, vid: nat, vSlots: map<nat, nat>, eSlots: map<nat, nat>,
                           layout: seq<DualPos>)
    requires |eRing| > 0 && vid in vSlots && ClosedCell(fRing, eRing, vid, vSlots, eSlots).Ok?
    requires forall k :: 0 <= k < |fRing| ==> fRing[k] < |layout| && layout[fRing[k]] == Bary(fRing[k])
    requires vSlots[vid] < |layout| && layout[vSlots[vid]] == VertPos(vid)
    requires forall e :: e in eSlots ==> eSlots[e] < |layout| && layout[eSlots[e]] == Mid(e)
    ensures var c := ClosedCell(fRing, eRing, vid, vSlots, eSlots).value;
      |c| == |fRing| + 3 && c[..|fRing|] == fRing &&
      (forall k :: 0 <= k < |c| ==> c[k] < |layout|) &&
      layout[c[|fRing|]] == Mid(Last(eRing)) &&
      layout[c[|fRing| + 1]] == VertPos(vid) &&
      layout[c[|fRing| + 2]] == Mid(eRing[0])
  {
    var c := ClosedCell(fRing, eRing, vid, vSlots, eSlots).value;
    assert c[..|fRing|] == fRing;
    forall k | 0 <= k < |c|
      ensures c[k] < |layout|
    {
      if k < |fRing| {
        assert c[k] == fRing[k];
      }
    }
  }

  /** Every triangle of a successful ring is a valid triangle, so its barycenter is in the layout. */
  lemma RingBarycenters(m: Mesh, vid: nat)
    requires WellFormed(m) && vid < |m.adjV2E| && OneRingOf(m, vid).Ok?
    ensures forall k :: 0 <= k < |OneRingOf(m, vid).value.fRing| ==>
      OneRingOf(m, vid).value.fRing[k] < |Layout(m)| &&
      Layout(m)[OneRingOf(m, vid).value.fRing[k]] == Bary(OneRingOf(m, vid).value.fRing[k])
  {
    OneRingFacts(m, vid);
    LayoutVertSlots(m);
  }

  /**
   * A cell starts with the ordered triangle ring of its vertex, each entry the
   * slot of that triangle's barycenter, and every entry is a valid index into
   * the dual vertex list; at an interior vertex that ring is the whole cell.
   */
  lemma CellShape(m: Mesh, vid: nat)
    requires WellFormed(m) && vid < |m.adjV2E| && Cell(m, vid).Ok?
    ensures OneRingOf(m, vid).Ok?
    ensures var ring, c := OneRingOf(m, vid).value, Cell(m, vid).value;
      |ring.fRing| <= |c| && c[..|ring.fRing|] == ring.fRing &&
      (forall k :: 0 <= k < |c| ==> c[k] < |Layout(m)|) &&
      (forall k :: 0 <= k < |ring.fRing| ==> Layout(m)[c[k]] == Bary(ring.fRing[k])) &&
      (!VertIsBoundary(m, vid) ==> c == ring.fRing)
  {
    RingBarycenters(m, vid);
    if VertIsBoundary(m, vid) {
      CellBoundary(m, vid);
    }
  }

  /**
   * At a boundary vertex a cell has three entries after its triangle ring,
   * standing for the midpoint of the last ring edge, the vertex itself and
   * the midpoint of the first ring edge.
   */
  lemma CellBoundary(m: Mesh, vid: nat)
    requires WellFormed(m) && vid < |m.adjV2E| && VertIsBoundary(m, vid) && Cell(m, vid).Ok?
    ensures OneRingOf(m, vid).Ok? && |OneRingOf(m, vid).value.eRing| > 0
    ensures var ring, c := OneRingOf(m, vid).value, Cell(m, vid).value;
      |c| == |ring.fRing| + 3 && c[..|ring.fRing|] == ring.fRing &&
      (forall k :: 0 <= k < |c| ==> c[k] < |Layout(m)|) &&
      Layout(m)[c[|ring.fRing|]] == Mid(Last(ring.eRing)) &&
      Layout(m)[c[|ring.fRing| + 1]] == VertPos(vid) &&
      Layout(m)[c[|ring.fRing| + 2]] == Mid(ring.eRing[0])
  {
    var ring := OneRingOf(m, vid).value;
    BoundaryVertCellFacts(m, vid);
    RingBarycenters(m, vid);
    LayoutVertSlots(m);
    LayoutEdgeSlots(m);
    ClosedCellResolves(ring.fRing, ring.eRing, vid, VertSlots(m), EdgeSlots(m), Layout(m));
  }

  /** At a boundary vertex the first ring edge is a boundary edge, so its midpoint lookup succeeds. */
  lemma FrontEdgeMapped(m: Mesh, vid: nat)
    requires WellFormed(m) && vid < |m.adjV2E| && VertIsBoundary(m, vid) && OneRingOf(m, vid).Ok?
    ensures |OneRingOf(m, vid).value.eRing| > 0 && OneRingOf(m, vid).value.eRing[0] in EdgeSlots(m)
  {
    VertIsBoundaryIff(m, vid);
    BoundaryRingStart(m, vid);
    LayoutVertSlots(m);
    LayoutEdgeSlots(m);
  }

  /** A vertex without edges is interior and gets an empty polygon. */
  lemma IsolatedVertCell(m: Mesh, vid: nat)
    requires WellFormed(m) && vid < |m.adjV2E| && |m.adjV2E[vid]| == 0
    ensures !VertIsBoundary(m, vid) && Cell(m, vid) == Ok([])
  {
  }

  // ---------------------------------------------------------------------------
  // The construction as a sequence of loops

  /** Append the three closing entries of a boundary vertex's polygon, looking up each slot in turn. */
  method CloseCell(f: seq<nat>, es: seq<nat>, vid: nat, v2verts: map<nat, nat>, e2verts: map<nat, nat>)
    returns (r: Result<seq<nat>, DualError>)
    requires |es| > 0 && vid in v2verts
    ensures r == ClosedCell(f, es, vid, v2verts, e2verts)
  {
    var poly := f;
    if Last(es) !in e2verts {
      return Err(UnmappedEdge(Last(es)));
    }
    poly := poly + [e2verts[Last(es)]];
    poly := poly + [v2verts[vid]];
    if es[0] !in e2verts {
      return Err(UnmappedEdge(es[0]));
    }
    poly := poly + [e2verts[es[0]]];
    assert poly == f + [e2verts[Last(es)], v2verts[vid], e2verts[es[0]]];
    return Ok(poly);
  }

  /** The polygon of vertex vid, assembled from its ordered triangle and edge rings. */
  method DualCell(m: Mesh, vid: nat, v2verts: map<nat, nat>, e2verts: map<nat, nat>)
    returns (r: Result<seq<nat>, DualError>)
    requires WellFormed(m) && vid < |m.adjV2E|
    requires v2verts == VertSlots(m) && e2verts == EdgeSlots(m)
    ensures r == Cell(m, vid)
  {
    var ring := VertOrderedFaceRing(m, vid);
    if ring.Err? {
      return Err(RingError(ring.error));
    }
    if !VertIsBoundary(m, vid) {
      return Ok(ring.value);
    }
    var eStar := VertOrderedEdgeRing(m, vid);
    BoundaryVertCellFacts(m, vid);
    r := CloseCell(ring.value, eStar.value, vid, v2verts, e2verts);
  }

  /** Step 1: one dual vertex per triangle, its barycenter, in triangle order. */
  method BarycenterVerts(numTris: nat) returns (dualVerts: seq<DualPos>)
    ensures |dualVerts| == numTris && forall t :: 0 <= t < numTris ==> dualVerts[t] == Bary(t)
    ensures dualVerts == Centroids(numTris)
  {
    dualVerts := [];
    for tid := 0 to numTris
      invariant dualVerts == Centroids(tid)
    {
      dualVerts := dualVerts + [Bary(tid)];
    }
  }

  /**
   * Step 2: append one dual vertex per boundary vertex, in vertex order,
   * recording in v2verts the index each one lands at.
   */
  method AppendBoundaryVerts(m: Mesh, dualVerts: seq<DualPos>) returns (verts: seq<DualPos>, v2verts: map<nat, nat>)
    ensures verts == dualVerts + VertPositions(Marked(VertFlags(m), |m.adjV2E|))
    ensures v2verts == Slots(VertFlags(m), |m.adjV2E|, |dualVerts|)
  {
    ghost var vFlags := VertFlags(m);
    verts, v2verts := dualVerts, map[];
    for vid := 0 to |m.adjV2E|
      invariant verts == dualVerts + VertPositions(Marked(vFlags, vid))
      invariant v2verts == Slots(vFlags, vid, |dualVerts|)
    {
      PlaceVertStep(vFlags, vid, dualVerts, verts, v2verts);
      var boundary := VertIsBoundary(m, vid);
      assert boundary == vFlags[vid];
      if boundary {
        v2verts := v2verts[vid := |verts|];
        verts := verts + [VertPos(vid)];
      }
    }
  }

  /**
   * Step 3: append one dual vertex per boundary edge, its midpoint, in edge
   * order, recording in e2verts the index each one lands at.
   */
  method AppendBoundaryEdges(m: Mesh, dualVerts: seq<DualPos>) returns (verts: seq<DualPos>, e2verts: map<nat, nat>)
    requires |m.adjE2F| == |m.edgeVerts|
    ensures verts == dualVerts + MidPositions(Marked(EdgeFlags(m), |m.edgeVerts|))
    ensures e2verts == Slots(EdgeFlags(m), |m.edgeVerts|, |dualVerts|)
  {
    ghost var eFlags := EdgeFlags(m);
    verts, e2verts := dualVerts, map[];
    for eid := 0 to |m.edgeVerts|
      invariant verts == dualVerts + MidPositions(Marked(eFlags, eid))
      invariant e2verts == Slots(eFlags, eid, |dualVerts|)
    {
      PlaceMidStep(eFlags, eid, dualVerts, verts, e2verts);
      var boundary := EdgeIsBoundary(m, eid);
      assert boundary == eFlags[eid];
      if boundary {
        e2verts := e2verts[eid := |verts|];
        verts := verts + [Mid(eid)];
      }
    }
  }

  /** The three placement steps together produce the dual vertex layout and the two slot maps. */
  lemma LayoutOfSteps(m: Mesh, bary: seq<DualPos>, withVerts: seq<DualPos>, dualVerts: seq<DualPos>,
                      v2verts: map<nat, nat>, e2verts: map<nat, nat>)
    requires |m.adjE2F| == |m.edgeVerts| && bary == Centroids(|m.faceVerts|)
    requires withVerts == bary + VertPositions(Marked(VertFlags(m), |m.adjV2E|))
    requires v2verts == Slots(VertFlags(m), |m.adjV2E|, |bary|)
    requires dualVerts == withVerts + MidPositions(Marked(EdgeFlags(m), |m.edgeVerts|))
    requires e2verts == Slots(EdgeFlags(m), |m.edgeVerts|, |withVerts|)
    ensures dualVerts == Layout(m) && v2verts == VertSlots(m) && e2verts == EdgeSlots(m)
  {
    assert |withVerts| == |m.faceVerts| + |BoundaryVerts(m)|;
  }

  /**
   * The cells and flags a construction step is checked against: cell v is
   * vertex v's polygon, flag v says whether v is on the boundary.
   */
  ghost predicate Tracks(m: Mesh, cells: seq<Result<seq<nat>, DualError>>, flags: seq<bool>)
    requires WellFormed(m)
  {
    |cells| == |m.adjV2E| && |flags| == |m.adjV2E| &&
    (forall v {:trigger Cell(m, v)} :: 0 <= v < |cells| ==> cells[v] == Cell(m, v)) &&
    (forall v {:trigger VertIsBoundary(m, v)} :: 0 <= v < |flags| ==> flags[v] == VertIsBoundary(m, v))
  }

  /**
   * One round of step 4: vertex vid's polygon is skipped or appended, or
   * its failure is the outcome of the whole construction.
   */
  method AdmitCell(m: Mesh, withClippedCells: bool, vid: nat, v2verts: map<nat, nat>, e2verts: map<nat, nat>,
                   dualFaces: seq<seq<nat>>, ghost cells: seq<Result<seq<nat>, DualError>>, ghost flags: seq<bool>)
    returns (r: Result<seq<seq<nat>>, DualError>)
    requires WellFormed(m) && vid < |m.adjV2E|
    requires v2verts == VertSlots(m) && e2verts == EdgeSlots(m)
    requires Tracks(m, cells, flags)
    requires FacesOver(cells, flags, withClippedCells, vid) == Ok(dualFaces)
    ensures r.Ok? ==> r == FacesOver(cells, flags, withClippedCells, vid + 1)
    ensures r.Err? ==> r == FacesOver(cells, flags, withClippedCells, |m.adjV2E|)
  {
    FacesSnoc(cells, flags, withClippedCells, vid);
    var clippedCell := VertIsBoundary(m, vid);
    if clippedCell && !withClippedCells {
      return Ok(dualFaces);
    }
    var cell := DualCell(m, vid, v2verts, e2verts);
    if cell.Err? {
      FacesErrSticks(cells, flags, withClippedCells, vid + 1, |m.adjV2E|);
      return Err(cell.error);
    }
    return Ok(dualFaces + [cell.value]);
  }

  /**
   * Step 4: one polygon per vertex, skipping boundary vertices unless
   * clipped cells are wanted; the first failing cell aborts.
   */
  method AssembleFaces(m: Mesh, withClippedCells: bool, v2verts: map<nat, nat>, e2verts: map<nat, nat>,
                       ghost cells: seq<Result<seq<nat>, DualError>>, ghost flags: seq<bool>)
    returns (r: Result<seq<seq<nat>>, DualError>)
    requires WellFormed(m) && Tracks(m, cells, flags)
    requires v2verts == VertSlots(m) && e2verts == EdgeSlots(m)
    ensures r == FacesOver(cells, flags, withClippedCells, |m.adjV2E|)
  {
    var dualFaces: seq<seq<nat>> := [];
    for vid := 0 to |m.adjV2E|
      invariant FacesOver(cells, flags, withClippedCells, vid) == Ok(dualFaces)
    {
      var next := AdmitCell(m, withClippedCells, vid, v2verts, e2verts, dualFaces, cells, flags);
      if next.Err? {
        return next;
      }
      dualFaces := next.value;
    }
    return Ok(dualFaces);
  }

  /**
   * Build the dual of a triangle mesh: the barycenters, then one vertex per
   * boundary vertex and one per boundary edge, then one polygon per admitted
   * vertex. Both outputs start empty.
   */
  method DualMesh(m: Mesh, withClippedCells: bool) returns (r: Result<DualMeshData, DualError>)
    requires WellFormed(m) && IsTrimesh(m)
    ensures r == DualOf(m, withClippedCells)
  {
    var bary := BarycenterVerts(|m.faceVerts|);
    var withVerts, v2verts := AppendBoundaryVerts(m, bary);
    var dualVerts, e2verts := AppendBoundaryEdges(m, withVerts);
    LayoutOfSteps(m, bary, withVerts, dualVerts, v2verts, e2verts);
    var faces := AssembleFaces(m, withClippedCells, v2verts, e2verts, Cells(m), VertFlags(m));
    if faces.Err? {
      return Err(faces.error);
    }
    return Ok(DualMeshData(dualVerts, faces.value));
  }
}
