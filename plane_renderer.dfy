/**
 * AARPlaneRenderer: keeps one procedural mesh component per tracked plane,
 * keyed by the plane's identity. A plane gets a component (tinted from the
 * colour palette) the first time it is seen while still alive, the
 * component is shown and its ring mesh rebuilt while the plane is tracking,
 * hidden otherwise, and destroyed once the plane is subsumed by another one
 * or has stopped tracking.
 *
 * Engine objects become values: a plane is its identity plus the state the
 * renderer queries, a mesh component the record of what the renderer sets on
 * it. Material instancing, the random texture rotation, registration,
 * attachment and the world transform are not modelled.
 */
module PlaneRenderer {
  import opened FeatheredMesh

  /** The identity of a UARPlaneGeometry object (the map key). */
  type PlaneId = nat

  /** EARTrackingState; NotTracking stands for every state other than the two
      the renderer tests for (ARCore's paused planes). */
  datatype TrackingState = Tracking | NotTracking | StoppedTracking

  /** EARTrackingQuality. */
  datatype TrackingQuality = QualityNotTracking | OrientationOnly | OrientationAndPosition

  /** What the renderer reads from a plane: GetSubsumedBy() != nullptr is
      `subsumed`, the boundary is GetBoundaryPolygonInLocalSpace() and `up` is
      the up vector of the plane's local-to-world rotation. */
  datatype Plane = Plane(id: PlaneId, trackingState: TrackingState, subsumed: bool, boundary: seq<Vec3>, up: Vec3)

  /** The tracked geometries GetAllGeometries() reports; only planes matter here. */
  datatype TrackedGeometry = PlaneGeometry(plane: Plane) | OtherGeometry

  /** An FColor. */
  datatype Color = Color(r: int, g: int, b: int, a: int)

  const White := Color(255, 255, 255, 255)

  /** A UProceduralMeshComponent as the renderer sees it: visibility, the
      PlaneTint of its material and the content of mesh section 0 (None when
      the section is empty or cleared). */
  datatype MeshComponent = MeshComponent(visible: bool, tint: Color, section: Option<MeshBuffers>)

  /** The renderer state that UpdatePlane changes: PlaneMeshMap and NewPlaneIndex. */
  datatype Registry = Registry(meshes: map<PlaneId, MeshComponent>, newPlaneIndex: nat)

  /** A plane whose component must go (or must never be created). */
  predicate Retired(p: Plane) { p.subsumed || p.trackingState == StoppedTracking }

  /** A plane whose component is shown and whose mesh is rebuilt. */
  predicate Shown(p: Plane) { p.trackingState == Tracking && !p.subsumed }

  /** The palette slot of the next new plane. */
  function ColorIndex(newPlaneIndex: nat, colorCount: nat): (i: nat)
    requires colorCount > 0
    ensures i < colorCount
  {
    newPlaneIndex % colorCount
  }

  /** The tint of a new plane's material: white without a palette, else the
      palette entry at NewPlaneIndex modulo the palette size. */
  function PlaneTint(colors: seq<Color>, newPlaneIndex: nat): (c: Color)
    ensures colors == [] ==> c == White
    ensures colors != [] ==> c in colors
  {
    if |colors| == 0 then White else colors[ColorIndex(newPlaneIndex, |colors|)]
  }

  /** A freshly created component: visible (the engine default), tinted, with
      an empty mesh section. */
  function NewComponent(tint: Color): MeshComponent
  {
    MeshComponent(true, tint, None)
  }

  /** The effect of UpdatePlane on the registry, as a function of its state
      before: `colors` is PlaneColors, `d` EdgeFeatheringDistance. */
  function UpdatePlaneStep(r: Registry, p: Plane, colors: seq<Color>, d: real, g: VectorMath): (r': Registry)
    // a plane first seen already subsumed or stopped changes nothing
    ensures p.id !in r.meshes && Retired(p) ==> r' == r
    // a subsumed or stopped plane has no component afterwards
    ensures Retired(p) ==> p.id !in r'.meshes
    // any other plane has one, visible exactly when it is tracking
    ensures !Retired(p) ==> p.id in r'.meshes && r'.meshes[p.id].visible == Shown(p)
    // a tracking plane's section holds its freshly generated ring mesh
    ensures Shown(p) ==> r'.meshes[p.id].section == RingMesh(g, p.boundary, d, p.up)
    // a paused plane keeps its tint and its last mesh
    ensures !Retired(p) && !Shown(p) && p.id in r.meshes ==>
      r'.meshes[p.id] == r.meshes[p.id].(visible := false)
    // a new plane that is not tracking has an empty section
    ensures p.id !in r.meshes && !Retired(p) && !Shown(p) ==> r'.meshes[p.id].section == None
    // a new plane is tinted from the palette slot of NewPlaneIndex
    ensures p.id !in r.meshes && !Retired(p) ==> r'.meshes[p.id].tint == PlaneTint(colors, r.newPlaneIndex)
    // an existing plane keeps its tint
    ensures p.id in r.meshes && p.id in r'.meshes ==> r'.meshes[p.id].tint == r.meshes[p.id].tint
    // NewPlaneIndex counts the components created
    ensures r'.newPlaneIndex == if p.id !in r.meshes && !Retired(p) then r.newPlaneIndex + 1 else r.newPlaneIndex
    // other planes' entries are untouched
    ensures forall id :: id != p.id ==> (id in r'.meshes <==> id in r.meshes)
    ensures forall id :: id != p.id && id in r.meshes ==> r'.meshes[id] == r.meshes[id]
    // no more components than were ever created
    ensures |r.meshes| <= r.newPlaneIndex ==> |r'.meshes| <= r'.newPlaneIndex
  {
    if p.id !in r.meshes && Retired(p) then r
    else
      var r1 := if p.id in r.meshes then r
                else Registry(r.meshes[p.id := NewComponent(PlaneTint(colors, r.newPlaneIndex))], r.newPlaneIndex + 1);
      var c := r1.meshes[p.id];
      var c' := if Shown(p) then c.(visible := true, section := RingMesh(g, p.boundary, d, p.up))
                else c.(visible := false);
      if Retired(p) then Registry(r1.meshes - {p.id}, r1.newPlaneIndex)
      else Registry(r1.meshes[p.id := c'], r1.newPlaneIndex)
  }

  /** The effect of one Tick at OrientationAndPosition quality: UpdatePlane for
      every plane among the geometries, in order. */
  function UpdateAll(r: Registry, gs: seq<TrackedGeometry>, colors: seq<Color>, d: real, g: VectorMath): (r': Registry)
    ensures r.newPlaneIndex <= r'.newPlaneIndex
    ensures |r.meshes| <= r.newPlaneIndex ==> |r'.meshes| <= r'.newPlaneIndex
    decreases |gs|
  {
    if gs == [] then r
    else
      var prev := UpdateAll(r, gs[..|gs| - 1], colors, d, g);
      match gs[|gs| - 1]
      case PlaneGeometry(p) => UpdatePlaneStep(prev, p, colors, d, g)
      case OtherGeometry => prev
  }

  /** Whether some plane geometry in gs has identity id. */
  predicate Mentions(gs: seq<TrackedGeometry>, id: PlaneId)
  {
    exists k :: 0 <= k < |gs| && gs[k].PlaneGeometry? && gs[k].plane.id == id
  }

  /** A Tick leaves the entry of every plane it is not told about as it was. */
  lemma {:induction false} UpdateAllLeavesUnmentioned(r: Registry, gs: seq<TrackedGeometry>, colors: seq<Color>, d: real, g: VectorMath, id: PlaneId)
    requires !Mentions(gs, id)
    ensures var r' := UpdateAll(r, gs, colors, d, g);
      (id in r'.meshes <==> id in r.meshes) && (id in r.meshes ==> r'.meshes[id] == r.meshes[id])
  {
    if gs != [] {
      var front := gs[..|gs| - 1];
      assert !Mentions(front, id) by {
        forall k | 0 <= k < |front| ensures !(front[k].PlaneGeometry? && front[k].plane.id == id) {
          assert front[k] == gs[k];
        }
      }
      UpdateAllLeavesUnmentioned(r, front, colors, d, g, id);
    }
  }

  /** The planes among the geometries, in order. */
  function PlanesOf(gs: seq<TrackedGeometry>): seq<TrackedGeometry>
  {
    if gs == [] then []
    else PlanesOf(gs[..|gs| - 1]) + (if gs[|gs| - 1].PlaneGeometry? then [gs[|gs| - 1]] else [])
  }

  /** A Tick only forwards plane geometries: the other geometries have no effect. */
  lemma {:induction false} UpdateAllSkipsOtherGeometry(r: Registry, gs: seq<TrackedGeometry>, colors: seq<Color>, d: real, g: VectorMath)
    ensures UpdateAll(r, gs, colors, d, g) == UpdateAll(r, PlanesOf(gs), colors, d, g)
  {
    if gs != [] {
      var front := gs[..|gs| - 1];
      var last := gs[|gs| - 1];
      UpdateAllSkipsOtherGeometry(r, front, colors, d, g);
      if last.PlaneGeometry? {
        var ps := PlanesOf(gs);
        assert ps[..|ps| - 1] == PlanesOf(front);
      } else {
        assert PlanesOf(gs) == PlanesOf(front);
      }
    }
  }

  class ARPlaneRenderer {
    /** The feathering distance for the polygon edge. */
    var edgeFeatheringDistance: real
    /** The palette of plane tints. */
    var planeColors: seq<Color>
    var planeMeshMap: map<PlaneId, MeshComponent>
    var newPlaneIndex: nat
    /** The engine's vector routines used by the mesh generator. */
    const vectorMath: VectorMath

    /** Never more live components than were created. */
    ghost predicate Valid()
      reads this
    {
      |planeMeshMap| <= newPlaneIndex
    }

    function State(): Registry
      reads this
    {
      Registry(planeMeshMap, newPlaneIndex)
    }

    constructor (vectorMath: VectorMath)
      ensures Valid()
      ensures edgeFeatheringDistance == 10.0 && newPlaneIndex == 0
      ensures planeMeshMap == map[] && planeColors == []
      ensures this.vectorMath == vectorMath
    {
      edgeFeatheringDistance := 10.0;
      newPlaneIndex := 0;
      planeColors := [];
      planeMeshMap := map[];
      this.vectorMath := vectorMath;
    }

    /** Per-frame update: `quality` is GetTrackingQuality() and `geometries`
        GetAllGeometries(). */
    method Tick(quality: TrackingQuality, geometries: seq<TrackedGeometry>)
      requires Valid()
      modifies this
      ensures Valid()
      ensures edgeFeatheringDistance == old(edgeFeatheringDistance) && planeColors == old(planeColors)
      ensures quality != OrientationAndPosition ==> State() == old(State())
      ensures quality == OrientationAndPosition ==>
        State() == UpdateAll(old(State()), geometries, planeColors, edgeFeatheringDistance, vectorMath)
    {
      if quality == OrientationAndPosition {
        var i := 0;
        while i < |geometries|
          invariant 0 <= i <= |geometries|
          invariant Valid()
          invariant edgeFeatheringDistance == old(edgeFeatheringDistance) && planeColors == old(planeColors)
          invariant State() == UpdateAll(old(State()), geometries[..i], planeColors, edgeFeatheringDistance, vectorMath)
        {
          assert geometries[..i + 1][..i] == geometries[..i];
          var geometry := geometries[i];
          if geometry.PlaneGeometry? {
            UpdatePlane(geometry.plane);
          }
          i := i + 1;
        }
        assert geometries[..|geometries|] == geometries;
      }
    }

    method UpdatePlane(arCorePlaneObject: Plane)
      requires Valid()
      modifies this
      ensures Valid()
      ensures edgeFeatheringDistance == old(edgeFeatheringDistance) && planeColors == old(planeColors)
      ensures State() == UpdatePlaneStep(old(State()), arCorePlaneObject, planeColors, edgeFeatheringDistance, vectorMath)
    {
      var planePolygonMeshComponent: MeshComponent;
      if arCorePlaneObject.id !in planeMeshMap {
        if arCorePlaneObject.subsumed || arCorePlaneObject.trackingState == StoppedTracking {
          return;
        }
        var color := White;
        if |planeColors| != 0 {
          var colorIndex := newPlaneIndex % |planeColors|;
          color := planeColors[colorIndex];
        }
        planePolygonMeshComponent := NewComponent(color);
        planeMeshMap := planeMeshMap[arCorePlaneObject.id := planePolygonMeshComponent];
        newPlaneIndex := newPlaneIndex + 1;
      } else {
        planePolygonMeshComponent := planeMeshMap[arCorePlaneObject.id];
      }

      if arCorePlaneObject.trackingState == Tracking && !arCorePlaneObject.subsumed {
        if !planePolygonMeshComponent.visible {
          planePolygonMeshComponent := planePolygonMeshComponent.(visible := true);
        }
        planePolygonMeshComponent := UpdatePlaneMesh(arCorePlaneObject, planePolygonMeshComponent);
        planeMeshMap := planeMeshMap[arCorePlaneObject.id := planePolygonMeshComponent];
      } else if planePolygonMeshComponent.visible {
        planePolygonMeshComponent := planePolygonMeshComponent.(visible := false);
        planeMeshMap := planeMeshMap[arCorePlaneObject.id := planePolygonMeshComponent];
      }

      if arCorePlaneObject.subsumed || arCorePlaneObject.trackingState == StoppedTracking {
        // The map lookup needs the plane to be present: a plane reaching this
        // point subsumed or stopped was in the map before the call.
        planePolygonMeshComponent := planeMeshMap[arCorePlaneObject.id];
        planeMeshMap := planeMeshMap - {arCorePlaneObject.id};
      }
    }

    /** Rebuilds section 0 of the component from the plane's boundary; the
        section is cleared for fewer than three boundary points. */
    method UpdatePlaneMesh(arCorePlaneObject: Plane, planePolygonMeshComponent: MeshComponent)
      returns (updated: MeshComponent)
      ensures updated.visible == planePolygonMeshComponent.visible
      ensures updated.tint == planePolygonMeshComponent.tint
      ensures updated.section == RingMesh(vectorMath, arCorePlaneObject.boundary, edgeFeatheringDistance, arCorePlaneObject.up)
    {
      var mesh := BuildRingMesh(vectorMath, arCorePlaneObject.boundary, edgeFeatheringDistance, arCorePlaneObject.up);
      match mesh
      case None =>
        updated := planePolygonMeshComponent.(section := None);
      case Some(buffers) =>
        updated := planePolygonMeshComponent.(section := Some(buffers));
    }
  }
}
