# ARCore Unreal samples: plane meshes and Sobel edges, in Dafny

This project models three pieces of sequential logic from the ARCore Unreal
SDK samples and proves properties of them.

- **Feathered ring mesh** (`feathered_mesh.dfy`, module `FeatheredMesh`).
  `AARPlaneRenderer::UpdatePlaneMesh` and its near-copy
  `AARPlaneActor::UpdatePlanePolygonMesh` turn a convex boundary polygon of N
  points into a two-ring mesh:
  - 2N vertices: each boundary point, followed by its point inset towards the origin;
  - UVs, uniform normals and per-vertex alpha (0 outer, 1 inner);
  - an index buffer made of N perimeter quads, the last one wrapping back
    to vertices 0 and 1, followed by an N - 2 triangle fan over the inner ring.

  With fewer than three points the section is cleared. `BuildRingMesh` and
  `BuildRingIndices` are the source's loops. The specification functions
  `RingVertices`, `RingIndices`, … and `RingMesh` define the result as a
  value. The lemmas prove counts, ranges, the mod-N wrap and the inner/outer
  split about those values.
- **Plane registry** (`plane_renderer.dfy`, module `PlaneRenderer`).
  Class `ARPlaneRenderer` holds the renderer's `PlaneMeshMap` (plane identity to
  mesh component) and `NewPlaneIndex`. `UpdatePlane` does the following:
  - creates a tinted component the first time a live plane is seen;
  - shows it and rebuilds its mesh while the plane tracks, and hides it
    otherwise;
  - destroys it once the plane is subsumed or has stopped tracking.

  `Tick` forwards every plane geometry to `UpdatePlane`, and only at
  `OrientationAndPosition` tracking quality. These methods are proved against
  the specification functions `UpdatePlaneStep` and `UpdateAll`.
- **Plane actor** (`plane_actor.dfy`, module `PlaneActor`). `ARPlaneActor`
  rebuilds its one mesh section with the same generator. Its contract is
  stated with the same `RingMesh` function. So the actor and the renderer
  produce identical buffers from the same boundary, feathering distance and
  normal.
- **Sobel edge detection** (`edge_detector.dfy`, module `EdgeDetector`).
  `SobelEdgeDetection` works on a strided 8-bit luma plane.
  - It samples a 3×3 neighbourhood of each pixel with clamp-to-edge addressing.
  - It correlates the samples with the two Sobel kernels.
  - It clamps the quantised magnitude to [0, 255] and replicates it into all
    four bytes of a 32-bit word.
  - It writes that word to slot `y * Width + x` of the caller's buffer.

  The method is proved against the per-pixel function `SobelPixel`.

Modelling choices:
- Positions, UVs and colours are over `real`.
- The engine's `FVector::Size` and `FVector::GetUnsafeNormal` are the two
  function-valued fields of a `VectorMath` parameter. The inset point itself
  is written out: `B - unsafeNormal(B) * min(size(B), d)`.
- The edge detector divides samples by 256 and accumulates them in `float`.
  Every such partial sum is a multiple of 1/256 below 5 in magnitude, so the
  float sums are exact. The model therefore accumulates the integer gradients
  `Gx = 256 * XMag` and `Gy = 256 * YMag`.
- `int32(sqrt(XMag² + YMag²) * 255)` is the caller-supplied function
  `quantize` of `Gx² + Gy²`. The clamping and the packing after it are
  modelled exactly on `bv32`.
- Engine objects are values:
  - a plane is its identity, tracking state, subsumed flag, boundary and up vector;
  - a mesh component is a record of its visibility, its material tint and
    the content of mesh section 0.
- Engine queries (`GetTrackingQuality`, `GetAllGeometries`) are parameters
  of `Tick`.

Facts about the code that the model keeps:
- `EdgeDetector.cpp` writes the clamped magnitude itself, replicated into
  the four bytes of each word, and reads the luma plane in place.
- The inset point uses `GetUnsafeNormal` with no guard for a boundary point
  at the origin, and so does the model.

## Model

| member | source | states |
|---|---|---|
| FeatheredMesh.InteriorPoint | CloudARPin/Source/CloudARPinSample/ARPlaneRenderer.cpp:142-144 | Defines the inset point: the boundary point moved towards the origin along its unsafe normal by the smaller of its length and the feathering distance |
| FeatheredMesh.RingMesh | CloudARPin/Source/CloudARPinSample/ARPlaneRenderer.cpp:115-191 | Defines the generator's result: nothing (section cleared) exactly when there are fewer than 3 boundary points, else the five ring buffers |
| FeatheredMesh.BuildRingMesh | CloudARPin/Source/CloudARPinSample/ARPlaneRenderer.cpp:113-188 | No buffers (section cleared) exactly when the boundary has fewer than 3 points; otherwise the five buffers equal the ring-mesh specification, appended in the source's loop order |
| FeatheredMesh.BuildRingIndices | CloudARPin/Source/CloudARPinSample/ARPlaneRenderer.cpp:159-188 | The unwrapped perimeter loop, the explicit wrap quad and the stride-2 fan loop together produce exactly N perimeter quads followed by the N - 2 fan triangles |
| FeatheredMesh.PerimeterStep | CloudARPin/Source/CloudARPinSample/ARPlaneRenderer.cpp:162-171 | For i + 1 < N, the six indices the perimeter loop appends are quad i of the mod-N pattern |
| FeatheredMesh.PerimeterWrap | CloudARPin/Source/CloudARPinSample/ARPlaneRenderer.cpp:173-180 | The six explicitly appended wrap indices are quad N - 1 of the mod-N pattern, closing the ring on vertices 0 and 1 |
| FeatheredMesh.FanStep | CloudARPin/Source/CloudARPinSample/ARPlaneRenderer.cpp:183-188 | At odd loop counter k the fan loop appends fan triangle (k - 1) / 2, that is (1, k, k + 2) |
| FeatheredMesh.RingVertexBuffers | CloudARPin/Source/CloudARPinSample/ARPlaneRenderer.cpp:139-157 | All four vertex buffers have length 2N; slot 2i is boundary point i and slot 2i + 1 its inset point; every UV is its vertex's (X, Y); every normal is the plane normal; alpha is 0 at even and 1 at odd slots |
| FeatheredMesh.RingVerticesAt | CloudARPin/Source/CloudARPinSample/ARPlaneRenderer.cpp:141-147 | The vertex buffer of the first m points has 2m entries: boundary point i at 2i, its inset point at 2i + 1 |
| FeatheredMesh.RingUVsFollowVertices | CloudARPin/Source/CloudARPinSample/ARPlaneRenderer.cpp:149-150 | The UV buffer is as long as the vertex buffer and each UV is the (X, Y) of the vertex in the same slot |
| FeatheredMesh.RingNormalsUniform | CloudARPin/Source/CloudARPinSample/ARPlaneRenderer.cpp:152-153 | The normal buffer has 2m entries, all equal to the plane normal |
| FeatheredMesh.RingColorsAlpha | CloudARPin/Source/CloudARPinSample/ARPlaneRenderer.cpp:155-156 | The colour buffer has 2m entries, the outer colour (alpha 0) at even slots and the inner colour (alpha 1) at odd slots |
| FeatheredMesh.PerimeterAt | CloudARPin/Source/CloudARPinSample/ARPlaneRenderer.cpp:162-180 | The first m perimeter quads occupy 6m entries, entry 6i + r being entry r of quad i |
| FeatheredMesh.FanAt | CloudARPin/Source/CloudARPinSample/ARPlaneRenderer.cpp:183-188 | The first m fan triangles occupy 3m entries, entry 3(k - 1) + r being entry r of triangle k |
| FeatheredMesh.RingIndicesCount | CloudARPin/Source/CloudARPinSample/ARPlaneRenderer.cpp:123-135 | The index buffer has exactly 3 * TriangleNum = 3 * (3N - 2) entries, the capacity the source reserves |
| FeatheredMesh.RingPerimeterQuads | CloudARPin/Source/CloudARPinSample/ARPlaneRenderer.cpp:162-180 | For every i < N with j = (i + 1) mod N, quad i is (2i, 2j, 2i+1), (2i+1, 2j, 2j+1); the explicit wrap pair (2N-2, 0, 2N-1), (2N-1, 0, 1) is exactly the case i = N - 1 |
| FeatheredMesh.PerimeterSlice | CloudARPin/Source/CloudARPinSample/ARPlaneRenderer.cpp:162-180 | The perimeter part has 6N entries and its slice [6i, 6i + 6) is quad i |
| FeatheredMesh.RingFanTriangles | CloudARPin/Source/CloudARPinSample/ARPlaneRenderer.cpp:182-188 | For 1 <= k <= N - 2, fan triangle k after the perimeter is (1, 2k+1, 2k+3) |
| FeatheredMesh.PerimeterInRange | CloudARPin/Source/CloudARPinSample/ARPlaneRenderer.cpp:162-180 | Every perimeter index lies in [0, 2N) |
| FeatheredMesh.FanInRange | CloudARPin/Source/CloudARPinSample/ARPlaneRenderer.cpp:183-188 | Every fan index lies in [1, 2m + 3] and is odd, that is an inner-ring vertex |
| FeatheredMesh.RingIndicesInRange | CloudARPin/Source/CloudARPinSample/ARPlaneRenderer.cpp:162-188 | Every index lies in [0, 2N), and every interior-fan index is odd (inner vertices only) |
| FeatheredMesh.RingIndicesCoverVertices | HelloARUnreal/Source/HelloARUnreal/Private/ARPlaneActor.cpp:91-109 | Every one of the 2N vertices is used by some triangle |
| FeatheredMesh.RingMeshDeterminedBySlots | HelloARUnreal/Source/HelloARUnreal/Private/ARPlaneActor.cpp:67-117 | Any five buffers that have the slot-by-slot description and the ring indices are the generator's result |
| PlaneActor.ARPlaneActor.UpdatePlanePolygonMesh | HelloARUnreal/Source/HelloARUnreal/Private/ARPlaneActor.cpp:37-121 | The actor's section becomes the same ring mesh as the renderer's (cleared for fewer than 3 points), for the bound plane's boundary, the feathering distance and the plane's up vector |
| PlaneActor.ARPlaneActor.constructor | HelloARSample/Source/HelloARUnreal/Public/ARPlaneActor.h:37-41 | A new actor has no plane, an empty section and feathering distance 10 |
| PlaneRenderer.ColorIndex | CloudARPin/Source/CloudARPinSample/ARPlaneRenderer.cpp:68-71 | The palette index NewPlaneIndex % PlaneColors.Num() is within the palette |
| PlaneRenderer.PlaneTint | CloudARPin/Source/CloudARPinSample/ARPlaneRenderer.cpp:67-72 | A new plane's tint is white when the palette is empty and a palette colour otherwise |
| PlaneRenderer.NewComponent | CloudARPin/Source/CloudARPinSample/ARPlaneRenderer.cpp:62-76 | Defines a freshly created component: visible, with the chosen tint and an empty section |
| PlaneRenderer.UpdatePlaneStep | CloudARPin/Source/CloudARPinSample/ARPlaneRenderer.cpp:52-108 | Unseen subsumed or stopped plane: registry unchanged. Subsumed or stopped: entry absent. Otherwise present, visible iff tracking; tracking rebuilds the ring mesh; paused keeps its mesh and tint. A new plane gets the palette tint of NewPlaneIndex, and an empty section unless it is tracking. NewPlaneIndex rises by exactly 1 when a component is created, else stays. Other entries untouched. Live components never outnumber NewPlaneIndex |
| PlaneRenderer.UpdateAll | CloudARPin/Source/CloudARPinSample/ARPlaneRenderer.cpp:38-48 | Over a frame NewPlaneIndex never decreases and the component-count bound is kept |
| PlaneRenderer.UpdateAllLeavesUnmentioned | CloudARPin/Source/CloudARPinSample/ARPlaneRenderer.cpp:40-48 | A frame leaves the entry of every plane not among its geometries exactly as it was |
| PlaneRenderer.UpdateAllSkipsOtherGeometry | CloudARPin/Source/CloudARPinSample/ARPlaneRenderer.cpp:41-47 | A frame has the same effect as the same frame restricted to its plane geometries |
| PlaneRenderer.ARPlaneRenderer.constructor | CloudARPin/Source/CloudARPinSample/ARPlaneRenderer.cpp:20-26 | A new renderer has feathering distance 10, NewPlaneIndex 0, no components and no palette |
| PlaneRenderer.ARPlaneRenderer.Tick | CloudARPin/Source/CloudARPinSample/ARPlaneRenderer.cpp:35-50 | Below OrientationAndPosition quality nothing changes; at it the new registry is the in-order update over all geometries; palette and feathering distance are kept and so is the component-count bound |
| PlaneRenderer.ARPlaneRenderer.UpdatePlane | CloudARPin/Source/CloudARPinSample/ARPlaneRenderer.cpp:52-108 | The new registry is UpdatePlaneStep of the old one; the lookup before destruction only happens for a plane that is in the map |
| PlaneRenderer.ARPlaneRenderer.UpdatePlaneMesh | CloudARPin/Source/CloudARPinSample/ARPlaneRenderer.cpp:110-195 | The component keeps its visibility and tint and its section becomes the ring mesh of the plane's boundary, feathering distance and up vector |
| EdgeDetector.ClampIndex | ComputerVision/Source/ComputerVision/EdgeDetector.cpp:43-49 | The clamped coordinate lies in [0, size); it is the coordinate itself inside, 0 below and size - 1 above |
| EdgeDetector.SampleOffset | ComputerVision/Source/ComputerVision/EdgeDetector.cpp:51-54 | Every read offset is between 0 and (W-1) * PixelStride + (H-1) * RowStride |
| EdgeDetector.Neighbourhood | ComputerVision/Source/ComputerVision/EdgeDetector.cpp:39-56 | A pixel's neighbourhood has nine samples |
| EdgeDetector.ClampMagnitude | ComputerVision/Source/ComputerVision/EdgeDetector.cpp:66-67 | The clamped magnitude is in [0, 255]: unchanged inside, 255 above, 0 below |
| EdgeDetector.PackWord | ComputerVision/Source/ComputerVision/EdgeDetector.cpp:69-73 | The packed word equals the byte times 0x01010101 and each of its four bytes equals the byte |
| EdgeDetector.Pack | ComputerVision/Source/ComputerVision/EdgeDetector.cpp:69-73 | The same for the clamped int32 magnitude |
| EdgeDetector.EdgeWord | ComputerVision/Source/ComputerVision/EdgeDetector.cpp:58-73 | Defines the word of a neighbourhood: the clamped quantised magnitude of the two correlations, packed; the word is one byte replicated four times |
| EdgeDetector.SobelPixel | ComputerVision/Source/ComputerVision/EdgeDetector.cpp:36-73 | Defines the output word of pixel (x, y) as the word of its clamped neighbourhood; it is one byte replicated four times |
| EdgeDetector.RowMajorIndex | ComputerVision/Source/ComputerVision/EdgeDetector.cpp:32-34 | Slot y * Width + x of an in-range pixel lies in [0, W * H) and determines x and y back |
| EdgeDetector.ReadSample | ComputerVision/Source/ComputerVision/EdgeDetector.cpp:43-56 | One read returns sample (u, v) of the pixel's clamped neighbourhood |
| EdgeDetector.PixelGradients | ComputerVision/Source/ComputerVision/EdgeDetector.cpp:36-61 | The two inner loops compute the correlation of the neighbourhood with each kernel |
| EdgeDetector.FilterRow | ComputerVision/Source/ComputerVision/EdgeDetector.cpp:34-74 | One pass of the x loop extends the filled prefix from row y to row y + 1 and writes no slot beyond it |
| EdgeDetector.FilterPixel | ComputerVision/Source/ComputerVision/EdgeDetector.cpp:36-73 | The loop body over one pixel produces that pixel's output word |
| EdgeDetector.FilledStep | ComputerVision/Source/ComputerVision/EdgeDetector.cpp:69-73 | Writing pixel (x, y)'s word at slot y * Width + x extends the filled prefix by one |
| EdgeDetector.SobelEdgeDetection | ComputerVision/Source/ComputerVision/EdgeDetector.cpp:12-76 | Afterwards slot k of [0, W*H) holds the word of pixel (k mod W, k div W); no slot beyond changes; the input plane is only read (nothing else is in its modifies frame) |
| EdgeDetector.CorrelateConstant | ComputerVision/Source/ComputerVision/EdgeDetector.cpp:58-59 | Correlating a constant neighbourhood gives the constant times the kernel's weight sum |
| EdgeDetector.UniformImageHasNoEdges | ComputerVision/Source/ComputerVision/EdgeDetector.cpp:20-59 | Both kernels' weights sum to zero, so an image whose pixels all have one level gives output word 0 at every pixel (when quantize(0) = 0); bytes of a strided plane outside the image (row padding, interleaved bytes) may hold anything |
| EdgeDetector.UniformNeighbourhood | ComputerVision/Source/ComputerVision/EdgeDetector.cpp:43-54 | In an image of one level every clamped sample of every pixel's neighbourhood has that level |
| EdgeDetector.FlatNeighbourhoodWord | ComputerVision/Source/ComputerVision/EdgeDetector.cpp:58-73 | Nine equal samples give both gradients 0 and so output word 0 (when quantize(0) = 0) |
| EdgeDetector.SobelPixelIsLocal | ComputerVision/Source/ComputerVision/EdgeDetector.cpp:39-59 | A pixel's word depends only on its nine clamped samples: two planes that agree there give the same word |

## Left out

- Engine effects are not modelled. This covers `RegisterComponent`, `AttachToComponent`, material instancing, the random `TextureRotationAngle`, `SetMaterial`, `SetWorldTransform` and `CreateMeshSection_LinearColor`'s tangent and collision arguments. The model keeps only visibility, tint and section content. `DestroyComponent` is modelled as the removal of the map entry.
- Floating point is not modelled. Positions and colours are reals. `Size` and `GetUnsafeNormal` are abstract parameters, so a zero-length boundary point (a NaN inset in the engine) is not modelled.
- Face winding and the sign of the normals are not stated. They need real geometry.
- The edge detector's `sqrt` and the scaling by 255 are the `quantize` parameter; float rounding in that step is not modelled.
- `Tick` as the engine calls it is reduced to its arguments. The tracking quality and the geometry list are parameters, and `DeltaTime` is dropped.
- UObject identity and aliasing are not modelled. Components are values in the map and each change is written back. Planes are compared by an integer identity.
- The C++ `int` width is not modelled. `NewPlaneIndex` is unbounded, so its wrap past 2^31 - 1 is absent, and so is `int` overflow of the index arithmetic for huge N.
- EdgeDetector.SobelEdgeDetection: the contract states the buffer's final contents and the untouched tail only; how many times each slot is written is not observable in it. Also, `uint32` and `int32` wrap-around of the read offsets and of `y * Width + x` is not modelled. The precondition asks for a plane longer than the largest offset and an output buffer of at least W·H words. It also asks that the two buffers are distinct storage, as a byte plane and a word buffer are in the source.
- Tracking states other than Tracking and StoppedTracking are one value, `NotTracking`, since the renderer tests only for those two.
- `UpdateCameraImage`, `GetTransformedCameraImageUV`, `AARPlaneActor::Tick`, ARPointCloudRenderer.cpp, CloudARPinSampleUtils.h and the build rules are not part of this model. They are camera I/O, float viewport math, a transform copy, debug drawing, session lookups and build configuration.
- PlaneActor.ARPlaneActor.UpdatePlanePolygonMesh: requires the actor to be bound to a plane. The source dereferences `ARCorePlaneObject` unchecked (ARPlaneActor.cpp:41), so the null case, a crash in the engine, is not modelled.
- EdgeDetector.Pack: `MagnitudeInt << 24` is a shift of a signed `int32_t`; for magnitudes of 128 or more it reaches the sign bit, which C++ before C++20 leaves undefined. The model takes the wrapped 32-bit pattern, as the two's-complement compilers produce.
