/**
 * The feathered ring mesh that the AR samples draw for a tracked plane.
 *
 * From a boundary polygon of N points the generator emits 2N vertices
 * (outer boundary point, then its inset "feathered" point, for each boundary
 * point in turn), one UV, one normal and one colour per vertex, and a
 * triangle index buffer made of perimeter quads followed by an interior fan.
 * The same generator appears in AARPlaneRenderer::UpdatePlaneMesh and in
 * AARPlaneActor::UpdatePlanePolygonMesh; both are modelled by BuildRingMesh.
 *
 * Engine floats are modelled as reals. The two engine vector routines the
 * inset point uses (FVector::Size and FVector::GetUnsafeNormal) are left
 * abstract as the fields of a VectorMath record.
 */
module FeatheredMesh {

  datatype Option<T> = None | Some(value: T)

  /** An FVector: a position or a direction in the plane's local frame. */
  datatype Vec3 = Vec3(x: real, y: real, z: real)

  /** An FVector2D, used for texture coordinates. */
  datatype Vec2 = Vec2(x: real, y: real)

  /** An FLinearColor; the generator only sets the alpha channel apart. */
  datatype LinearColor = LinearColor(r: real, g: real, b: real, a: real)

  /** The engine's vector routines: FVector::Size and FVector::GetUnsafeNormal. */
  datatype VectorMath = VectorMath(size: Vec3 -> real, unsafeNormal: Vec3 -> Vec3)

  /** The five buffers handed to CreateMeshSection_LinearColor. */
  datatype MeshBuffers = MeshBuffers(
    vertices: seq<Vec3>,
    indices: seq<int>,
    normals: seq<Vec3>,
    uvs: seq<Vec2>,
    colors: seq<LinearColor>)

  function Min(a: real, b: real): real { if a <= b then a else b }

  function Sub(a: Vec3, b: Vec3): Vec3 { Vec3(a.x - b.x, a.y - b.y, a.z - b.z) }

  function Scale(a: Vec3, s: real): Vec3 { Vec3(a.x * s, a.y * s, a.z * s) }

  /** The inset point: the boundary point moved towards the local origin by
      the smaller of its distance to the origin and the feathering distance. */
  function InteriorPoint(g: VectorMath, boundaryPoint: Vec3, featherDistance: real): Vec3
  {
    var featheringDist := Min(g.size(boundaryPoint), featherDistance);
    Sub(boundaryPoint, Scale(g.unsafeNormal(boundaryPoint), featheringDist))
  }

  /** The texture coordinate of a vertex: its local X and Y. */
  function UV(p: Vec3): Vec2 { Vec2(p.x, p.y) }

  /** Outer (boundary) vertices are fully transparent, inner ones opaque. */
  const OuterColor := LinearColor(0.0, 0.0, 0.0, 0.0)
  const InnerColor := LinearColor(0.0, 0.0, 0.0, 1.0)

  /** The triangle count the source reserves: n - 2 interior plus 2n perimeter. */
  function TriangleNum(n: int): int { n - 2 + n * 2 }

  // ---------------------------------------------------------------------
  // The buffers, for the first m boundary points, in the order the source
  // appends them.

  function RingVertices(g: VectorMath, boundary: seq<Vec3>, d: real, m: nat): seq<Vec3>
    requires m <= |boundary|
  {
    if m == 0 then []
    else RingVertices(g, boundary, d, m - 1) + [boundary[m - 1], InteriorPoint(g, boundary[m - 1], d)]
  }

  function RingUVs(g: VectorMath, boundary: seq<Vec3>, d: real, m: nat): seq<Vec2>
    requires m <= |boundary|
  {
    if m == 0 then []
    else RingUVs(g, boundary, d, m - 1) + [UV(boundary[m - 1]), UV(InteriorPoint(g, boundary[m - 1], d))]
  }

  function RingNormals(normal: Vec3, m: nat): seq<Vec3>
  {
    if m == 0 then [] else RingNormals(normal, m - 1) + [normal, normal]
  }

  function RingColors(m: nat): seq<LinearColor>
  {
    if m == 0 then [] else RingColors(m - 1) + [OuterColor, InnerColor]
  }

  /** Reference definition of the i-th perimeter quad, written with the
      mod-n wrap: outer i, outer j, inner i and inner i, outer j, inner j. */
  function PerimeterQuad(n: nat, i: nat): seq<int>
    requires n > 0
  {
    var j := (i + 1) % n;
    [2 * i, 2 * j, 2 * i + 1, 2 * i + 1, 2 * j, 2 * j + 1]
  }

  /** The first m perimeter quads. */
  function Perimeter(n: nat, m: nat): seq<int>
    requires n > 0
  {
    if m == 0 then [] else Perimeter(n, m - 1) + PerimeterQuad(n, m - 1)
  }

  /** The k-th interior fan triangle, fanning from inner vertex 1. */
  function FanTriangle(k: nat): seq<int> { [1, 2 * k + 1, 2 * k + 3] }

  /** Fan triangles 1 to m. */
  function Fan(m: nat): seq<int>
  {
    if m == 0 then [] else Fan(m - 1) + FanTriangle(m)
  }

  /** The whole index buffer for an n-gon: n perimeter quads, then n - 2 fan triangles. */
  function RingIndices(n: nat): seq<int>
    requires n >= 2
  {
    Perimeter(n, n) + Fan(n - 2)
  }

  /** What the generator produces: None (the section is cleared) for fewer
      than three boundary points, the five buffers otherwise. */
  function RingMesh(g: VectorMath, boundary: seq<Vec3>, d: real, normal: Vec3): (r: Option<MeshBuffers>)
    ensures r.None? <==> |boundary| < 3
  {
    var n := |boundary|;
    if n < 3 then None
    else Some(MeshBuffers(
      RingVertices(g, boundary, d, n),
      RingIndices(n),
      RingNormals(normal, n),
      RingUVs(g, boundary, d, n),
      RingColors(n)))
  }

  // ---------------------------------------------------------------------
  // The generator, as the source writes it: one loop appending the four
  // vertex buffers (BuildRingMesh), then a loop of perimeter quads without
  // the wrap, the explicit wrap-around quad, and a stride-2 loop for the
  // interior fan (BuildRingIndices).

  method BuildRingMesh(g: VectorMath, boundary: seq<Vec3>, featherDistance: real, planeNormal: Vec3)
    returns (mesh: Option<MeshBuffers>)
    ensures mesh.None? <==> |boundary| < 3
    ensures mesh == RingMesh(g, boundary, featherDistance, planeNormal)
  {
    var boundaryVerticesNum := |boundary|;
    if boundaryVerticesNum < 3 {
      return None;
    }
    var vertices: seq<Vec3> := [];
    var colors: seq<LinearColor> := [];
    var normals: seq<Vec3> := [];
    var uvs: seq<Vec2> := [];

    var i := 0;
    while i < boundaryVerticesNum
      invariant 0 <= i <= boundaryVerticesNum
      invariant vertices == RingVertices(g, boundary, featherDistance, i)
      invariant uvs == RingUVs(g, boundary, featherDistance, i)
      invariant normals == RingNormals(planeNormal, i)
      invariant colors == RingColors(i)
    {
      var boundaryPoint := boundary[i];
      var boundaryToCenterDist := g.size(boundaryPoint);
      var featheringDist := Min(boundaryToCenterDist, featherDistance);
      var interiorPoint := Sub(boundaryPoint, Scale(g.unsafeNormal(boundaryPoint), featheringDist));

      vertices := vertices + [boundaryPoint, interiorPoint];
      uvs := uvs + [Vec2(boundaryPoint.x, boundaryPoint.y), Vec2(interiorPoint.x, interiorPoint.y)];
      normals := normals + [planeNormal, planeNormal];
      colors := colors + [OuterColor, InnerColor];
      i := i + 1;
    }

    var indices := BuildRingIndices(boundaryVerticesNum);
    mesh := Some(MeshBuffers(vertices, indices, normals, uvs, colors));
  }

  /** The index half of the generator, for n >= 3 boundary points. */
  method BuildRingIndices(boundaryVerticesNum: nat) returns (indices: seq<int>)
    requires boundaryVerticesNum >= 3
    ensures indices == RingIndices(boundaryVerticesNum)
  {
    var polygonMeshVerticesNum := boundaryVerticesNum * 2;
    indices := [];
    var i := 0;
    // Perimeter triangles, all but the last quad.
    while i < boundaryVerticesNum - 1
      invariant 0 <= i <= boundaryVerticesNum - 1
      invariant indices == Perimeter(boundaryVerticesNum, i)
    {
      PerimeterStep(boundaryVerticesNum, i);
      indices := indices + [i * 2, i * 2 + 2, i * 2 + 1];
      indices := indices + [i * 2 + 1, i * 2 + 2, i * 2 + 3];
      i := i + 1;
    }

    // The wrap-around quad closes the ring back to vertices 0 and 1.
    PerimeterWrap(boundaryVerticesNum);
    indices := indices + [(boundaryVerticesNum - 1) * 2, 0, (boundaryVerticesNum - 1) * 2 + 1];
    indices := indices + [(boundaryVerticesNum - 1) * 2 + 1, 0, 1];

    // Interior triangles, fanning from inner vertex 1 over the odd indices.
    var k := 3;
    while k < polygonMeshVerticesNum - 1
      invariant 3 <= k <= polygonMeshVerticesNum - 1 && k % 2 == 1
      invariant indices == Perimeter(boundaryVerticesNum, boundaryVerticesNum) + Fan((k - 3) / 2)
    {
      FanStep(k);
      indices := indices + [1, k, k + 2];
      k := k + 2;
    }
  }

  /** One unwrapped perimeter quad, as the first loop appends it. */
  lemma PerimeterStep(n: nat, i: nat)
    requires i + 1 < n
    ensures Perimeter(n, i + 1) == Perimeter(n, i) + [i * 2, i * 2 + 2, i * 2 + 1] + [i * 2 + 1, i * 2 + 2, i * 2 + 3]
  {
    assert (i + 1) % n == i + 1;
  }

  /** The last perimeter quad, whose far edge is vertices 0 and 1. */
  lemma PerimeterWrap(n: nat)
    requires n >= 1
    ensures Perimeter(n, n) ==
      Perimeter(n, n - 1) + [(n - 1) * 2, 0, (n - 1) * 2 + 1] + [(n - 1) * 2 + 1, 0, 1]
  {
    assert n % n == 0;
  }

  /** One fan triangle, as the stride-2 loop appends it at odd k. */
  lemma FanStep(k: nat)
    requires k >= 3 && k % 2 == 1
    ensures (k + 2 - 3) / 2 == (k - 3) / 2 + 1
    ensures Fan((k + 2 - 3) / 2) == Fan((k - 3) / 2) + [1, k, k + 2]
  {
    var done := (k - 3) / 2;
    assert 2 * done + 3 == k;
  }

  // ---------------------------------------------------------------------
  // Vertex buffers: lengths and slot-by-slot contents.

  lemma {:induction false} RingVerticesAt(g: VectorMath, boundary: seq<Vec3>, d: real, m: nat)
    requires m <= |boundary|
    ensures |RingVertices(g, boundary, d, m)| == 2 * m
    ensures forall i :: 0 <= i < m ==>
      RingVertices(g, boundary, d, m)[2 * i] == boundary[i] &&
      RingVertices(g, boundary, d, m)[2 * i + 1] == InteriorPoint(g, boundary[i], d)
  {
    if m > 0 {
      RingVerticesAt(g, boundary, d, m - 1);
    }
  }

  lemma {:induction false} RingUVsFollowVertices(g: VectorMath, boundary: seq<Vec3>, d: real, m: nat)
    requires m <= |boundary|
    ensures |RingUVs(g, boundary, d, m)| == |RingVertices(g, boundary, d, m)|
    ensures forall k :: 0 <= k < |RingUVs(g, boundary, d, m)| ==>
      RingUVs(g, boundary, d, m)[k] == UV(RingVertices(g, boundary, d, m)[k])
  {
    if m > 0 {
      RingUVsFollowVertices(g, boundary, d, m - 1);
    }
  }

  lemma {:induction false} RingNormalsUniform(normal: Vec3, m: nat)
    ensures |RingNormals(normal, m)| == 2 * m
    ensures forall k :: 0 <= k < 2 * m ==> RingNormals(normal, m)[k] == normal
  {
    if m > 0 {
      RingNormalsUniform(normal, m - 1);
    }
  }

  lemma {:induction false} RingColorsAlpha(m: nat)
    ensures |RingColors(m)| == 2 * m
    ensures forall k :: 0 <= k < 2 * m ==>
      RingColors(m)[k] == (if k % 2 == 0 then OuterColor else InnerColor)
  {
    if m > 0 {
      RingColorsAlpha(m - 1);
      forall k | 0 <= k < 2 * m
        ensures RingColors(m)[k] == (if k % 2 == 0 then OuterColor else InnerColor)
      {
        if k >= 2 * (m - 1) {
          assert k == 2 * (m - 1) || k == 2 * (m - 1) + 1;
        }
      }
    }
  }

  /** The four per-vertex buffers of a renderable boundary: 2N slots each;
      slot 2i is boundary point i with alpha 0, slot 2i+1 its inset point with
      alpha 1; every UV is its vertex's (X, Y) and every normal the plane's. */
  lemma RingVertexBuffers(g: VectorMath, boundary: seq<Vec3>, d: real, normal: Vec3)
    requires |boundary| >= 3
    ensures RingMesh(g, boundary, d, normal).Some?
    ensures var m := RingMesh(g, boundary, d, normal).value;
      && |m.vertices| == 2 * |boundary| && |m.uvs| == 2 * |boundary|
      && |m.normals| == 2 * |boundary| && |m.colors| == 2 * |boundary|
      && (forall i :: 0 <= i < |boundary| ==>
            m.vertices[2 * i] == boundary[i] && m.vertices[2 * i + 1] == InteriorPoint(g, boundary[i], d))
      && (forall k :: 0 <= k < 2 * |boundary| ==>
            m.uvs[k] == UV(m.vertices[k]) && m.normals[k] == normal &&
            m.colors[k].a == (if k % 2 == 0 then 0.0 else 1.0))
  {
    var n := |boundary|;
    RingVerticesAt(g, boundary, d, n);
    RingUVsFollowVertices(g, boundary, d, n);
    RingNormalsUniform(normal, n);
    RingColorsAlpha(n);
  }

  // ---------------------------------------------------------------------
  // Index buffer.

  lemma {:induction false} PerimeterAt(n: nat, m: nat)
    requires n > 0
    ensures |Perimeter(n, m)| == 6 * m
    ensures forall i, r :: 0 <= i < m && 0 <= r < 6 ==> Perimeter(n, m)[6 * i + r] == PerimeterQuad(n, i)[r]
  {
    if m > 0 {
      PerimeterAt(n, m - 1);
      var p := Perimeter(n, m);
      forall i, r | 0 <= i < m && 0 <= r < 6
        ensures p[6 * i + r] == PerimeterQuad(n, i)[r]
      {
        if i < m - 1 {
          assert p[6 * i + r] == Perimeter(n, m - 1)[6 * i + r];
        }
      }
    }
  }

  lemma {:induction false} FanAt(m: nat)
    ensures |Fan(m)| == 3 * m
    ensures forall k, r :: 1 <= k <= m && 0 <= r < 3 ==> Fan(m)[3 * (k - 1) + r] == FanTriangle(k)[r]
  {
    if m > 0 {
      FanAt(m - 1);
      var f := Fan(m);
      forall k, r | 1 <= k <= m && 0 <= r < 3
        ensures f[3 * (k - 1) + r] == FanTriangle(k)[r]
      {
        if k < m {
          assert f[3 * (k - 1) + r] == Fan(m - 1)[3 * (k - 1) + r];
        }
      }
    }
  }

  /** The index buffer holds exactly 3 * TriangleNum(N) = 3 * (3N - 2) entries,
      the capacity the source reserves. */
  lemma RingIndicesCount(n: nat)
    requires n >= 3
    ensures |RingIndices(n)| == 3 * TriangleNum(n) == 3 * (3 * n - 2)
  {
    PerimeterAt(n, n);
    FanAt(n - 2);
  }

  /** Perimeter: quad i (triangles 2i and 2i+1) is (2i, 2j, 2i+1) and
      (2i+1, 2j, 2j+1) with j = (i + 1) mod N; for i = N - 1 this is the
      explicit wrap-around pair (2N-2, 0, 2N-1), (2N-1, 0, 1). */
  lemma RingPerimeterQuads(n: nat, i: nat)
    requires n >= 3 && i < n
    ensures 6 * i + 6 <= |RingIndices(n)|
    ensures var j := (i + 1) % n;
      RingIndices(n)[6 * i .. 6 * i + 6] == [2 * i, 2 * j, 2 * i + 1, 2 * i + 1, 2 * j, 2 * j + 1]
    ensures i == n - 1 ==>
      RingIndices(n)[6 * i .. 6 * i + 6] == [2 * n - 2, 0, 2 * n - 1, 2 * n - 1, 0, 1]
  {
    PerimeterSlice(n, i);
    var p := Perimeter(n, n);
    assert RingIndices(n)[..|p|] == p;
    assert RingIndices(n)[6 * i .. 6 * i + 6] == p[6 * i .. 6 * i + 6];
    if i == n - 1 {
      assert (i + 1) % n == 0;
    }
  }

  lemma PerimeterSlice(n: nat, i: nat)
    requires i < n
    ensures |Perimeter(n, n)| == 6 * n
    ensures Perimeter(n, n)[6 * i .. 6 * i + 6] == PerimeterQuad(n, i)
  {
    PerimeterAt(n, n);
    var p := Perimeter(n, n);
    forall r | 0 <= r < 6 ensures p[6 * i .. 6 * i + 6][r] == PerimeterQuad(n, i)[r] {
      assert p[6 * i + r] == PerimeterQuad(n, i)[r];
    }
  }

  /** Interior fan: triangle k (1 <= k <= N - 2) after the perimeter is
      (1, 2k+1, 2k+3): it shares inner vertex 1 and uses inner vertices only. */
  lemma RingFanTriangles(n: nat, k: nat)
    requires n >= 3 && 1 <= k <= n - 2
    ensures 6 * n + 3 * k <= |RingIndices(n)|
    ensures RingIndices(n)[6 * n + 3 * (k - 1) .. 6 * n + 3 * k] == [1, 2 * k + 1, 2 * k + 3]
  {
    PerimeterAt(n, n);
    FanAt(n - 2);
    var s := RingIndices(n);
    forall r | 0 <= r < 3 ensures s[6 * n + 3 * (k - 1) + r] == FanTriangle(k)[r] {
      assert s[6 * n + 3 * (k - 1) + r] == Fan(n - 2)[3 * (k - 1) + r];
    }
    assert s[6 * n + 3 * (k - 1) .. 6 * n + 3 * k] == FanTriangle(k);
  }

  lemma PerimeterInRange(n: nat)
    requires n > 0
    ensures forall t :: 0 <= t < |Perimeter(n, n)| ==> 0 <= Perimeter(n, n)[t] < 2 * n
  {
    PerimeterAt(n, n);
    var p := Perimeter(n, n);
    forall t | 0 <= t < |p| ensures 0 <= p[t] < 2 * n {
      var i, r := t / 6, t % 6;
      assert t == 6 * i + r;
      assert p[6 * i + r] == PerimeterQuad(n, i)[r];
    }
  }

  lemma FanInRange(m: nat)
    ensures forall t :: 0 <= t < |Fan(m)| ==> 1 <= Fan(m)[t] <= 2 * m + 3 && Fan(m)[t] % 2 == 1
  {
    FanAt(m);
    var f := Fan(m);
    forall t | 0 <= t < |f| ensures 1 <= f[t] <= 2 * m + 3 && f[t] % 2 == 1 {
      var k, r := t / 3 + 1, t % 3;
      assert t == 3 * (k - 1) + r;
      assert f[3 * (k - 1) + r] == FanTriangle(k)[r];
    }
  }

  /** Every index names one of the 2N generated vertices, and every entry of
      the fan (from position 6N on) is an odd, i.e. inner, vertex. */
  lemma RingIndicesInRange(n: nat)
    requires n >= 3
    ensures forall t :: 0 <= t < |RingIndices(n)| ==> 0 <= RingIndices(n)[t] < 2 * n
    ensures forall t :: 6 * n <= t < |RingIndices(n)| ==> RingIndices(n)[t] % 2 == 1
  {
    PerimeterAt(n, n);
    PerimeterInRange(n);
    FanInRange(n - 2);
    var s := RingIndices(n);
    forall t | 0 <= t < |s|
      ensures 0 <= s[t] < 2 * n
      ensures t >= 6 * n ==> s[t] % 2 == 1
    {
      if t < 6 * n {
        assert s[t] == Perimeter(n, n)[t];
      } else {
        assert s[t] == Fan(n - 2)[t - 6 * n];
      }
    }
  }

  /** No generated vertex is left out of the index buffer. */
  lemma RingIndicesCoverVertices(n: nat)
    requires n >= 3
    ensures forall v :: 0 <= v < 2 * n ==> v in RingIndices(n)
  {
    PerimeterAt(n, n);
    FanAt(n - 2);
    var s := RingIndices(n);
    forall v | 0 <= v < 2 * n ensures v in s {
      var i := v / 2;
      if v % 2 == 0 {
        assert Perimeter(n, n)[6 * i + 0] == PerimeterQuad(n, i)[0] == v;
        assert s[6 * i] == Perimeter(n, n)[6 * i];
      } else {
        assert Perimeter(n, n)[6 * i + 2] == PerimeterQuad(n, i)[2] == v;
        assert s[6 * i + 2] == Perimeter(n, n)[6 * i + 2];
      }
    }
  }

  /** The outcome of a generation is determined by its inputs alone: two
      meshes that satisfy the per-slot description of RingVertexBuffers and
      carry the same index buffer are the same buffers. */
  lemma RingMeshDeterminedBySlots(g: VectorMath, boundary: seq<Vec3>, d: real, normal: Vec3, mesh: MeshBuffers)
    requires |boundary| >= 3
    requires |mesh.vertices| == 2 * |boundary| && |mesh.uvs| == 2 * |boundary|
    requires |mesh.normals| == 2 * |boundary| && |mesh.colors| == 2 * |boundary|
    requires forall i :: 0 <= i < |boundary| ==>
      mesh.vertices[2 * i] == boundary[i] && mesh.vertices[2 * i + 1] == InteriorPoint(g, boundary[i], d)
    requires forall k :: 0 <= k < 2 * |boundary| ==>
      mesh.uvs[k] == UV(mesh.vertices[k]) && mesh.normals[k] == normal &&
      mesh.colors[k] == (if k % 2 == 0 then OuterColor else InnerColor)
    requires mesh.indices == RingIndices(|boundary|)
    ensures RingMesh(g, boundary, d, normal) == Some(mesh)
  {
    var n := |boundary|;
    RingVertexBuffers(g, boundary, d, normal);
    RingColorsAlpha(n);
    var r := RingMesh(g, boundary, d, normal).value;
    forall k | 0 <= k < 2 * n ensures r.vertices[k] == mesh.vertices[k] {
      var i := k / 2;
      assert 0 <= i < n;
      assert r.vertices[2 * i] == boundary[i] == mesh.vertices[2 * i];
      assert r.vertices[2 * i + 1] == InteriorPoint(g, boundary[i], d) == mesh.vertices[2 * i + 1];
      assert k == 2 * i || k == 2 * i + 1;
    }
    assert r.vertices == mesh.vertices;
    assert r.uvs == mesh.uvs;
    assert r.normals == mesh.normals;
    assert r.colors == mesh.colors;
  }
}
