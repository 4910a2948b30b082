/**
 * AARPlaneActor (HelloAR sample): an actor owning one procedural mesh
 * component, which UpdatePlanePolygonMesh rebuilds from the boundary of the
 * plane the actor is bound to. The generator is the same ring mesh as
 * AARPlaneRenderer::UpdatePlaneMesh (module FeatheredMesh).
 */
module PlaneActor {
  import opened FeatheredMesh

  /** What the actor reads from its UGoogleARCorePlane:
      GetBoundaryPolygonInLocalSpace() and the up vector of its
      local-to-world rotation. */
  datatype CorePlane = CorePlane(boundary: seq<Vec3>, up: Vec3)

  class ARPlaneActor {
    /** Section 0 of PlanePolygonMeshComponent (None when empty or cleared). */
    var planePolygonMeshSection: Option<MeshBuffers>
    /** ARCorePlaneObject; None is the nullptr it starts as. */
    var arCorePlaneObject: Option<CorePlane>
    /** The feathering distance for the polygon edge. */
    var edgeFeatheringDistance: real
    /** The engine's vector routines used by the mesh generator. */
    const vectorMath: VectorMath

    constructor (vectorMath: VectorMath)
      ensures planePolygonMeshSection == None && arCorePlaneObject == None
      ensures edgeFeatheringDistance == 10.0 && this.vectorMath == vectorMath
    {
      planePolygonMeshSection := None;
      arCorePlaneObject := None;
      edgeFeatheringDistance := 10.0;
      this.vectorMath := vectorMath;
    }

    /** The actor must be bound to a plane: the source dereferences
        ARCorePlaneObject unchecked. */
    method UpdatePlanePolygonMesh()
      requires arCorePlaneObject.Some?
      modifies this`planePolygonMeshSection
      ensures planePolygonMeshSection ==
        RingMesh(vectorMath, arCorePlaneObject.value.boundary, edgeFeatheringDistance, arCorePlaneObject.value.up)
      ensures |arCorePlaneObject.value.boundary| < 3 ==> planePolygonMeshSection == None
    {
      var plane := arCorePlaneObject.value;
      var mesh := BuildRingMesh(vectorMath, plane.boundary, edgeFeatheringDistance, plane.up);
      match mesh
      case None =>
        planePolygonMeshSection := None;
      case Some(buffers) =>
        planePolygonMeshSection := Some(buffers);
    }
  }
}
