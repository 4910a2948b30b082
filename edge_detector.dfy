/**
 * AGoogleARCoreEdgeDetector::GoogleARCoreDoSobelEdgeDetection: a 3x3 Sobel
 * filter over a strided luma plane, with clamp-to-edge addressing, whose
 * magnitude is clamped to [0, 255] and replicated into the four bytes of a
 * 32-bit output word.
 *
 * Arithmetic: the source divides every sample by 256 and accumulates in
 * float. All those values are multiples of 1/256 of magnitude at most 4, so
 * the float sums are exact, and the model accumulates the integer gradients
 * Gx = 256 * XMag and Gy = 256 * YMag instead. XMag*XMag + YMag*YMag is then
 * exactly (Gx*Gx + Gy*Gy) / 65536; what follows it, int32(sqrt(..) * 255),
 * is the caller-supplied `quantize` of Gx*Gx + Gy*Gy.
 */
module EdgeDetector {

  newtype uint8 = x: int | 0 <= x < 256

  /** XKernel[u][v] and YKernel[u][v], flattened as entry 3 * u + v; u is the
      x offset and v the y offset of the sample. XKernel's weights vary with
      v, so it is in fact the vertical derivative, and YKernel the horizontal
      one; only the sum of their squares is used. */
  const XKernel: seq<int> := [-1, 0, 1, -2, 0, 2, -1, 0, 1]
  const YKernel: seq<int> := [-1, -2, -1, 0, 0, 0, 1, 2, 1]

  /** Clamp-to-edge addressing, as the source's two successive ifs. */
  function ClampIndex(c: int, size: int): (r: int)
    requires size >= 1
    ensures 0 <= r < size
    ensures 0 <= c < size ==> r == c
    ensures c < 0 ==> r == 0
    ensures c >= size ==> r == size - 1
  {
    var low := if c < 0 then 0 else c;
    if low >= size then size - 1 else low
  }

  /** The largest offset a read can have: the bottom-right pixel's. */
  function MaxOffset(width: int, height: int, pixelStride: nat, rowStride: nat): int
  {
    (width - 1) * pixelStride + (height - 1) * rowStride
  }

  lemma MulMono(a: int, b: int, c: int)
    requires a <= b && c >= 0
    ensures a * c <= b * c
  {
  }

  /** The offset of sample (u, v) of pixel (x, y)'s neighbourhood; it never
      exceeds MaxOffset, so a plane longer than MaxOffset is never read out of
      bounds. */
  function SampleOffset(x: int, y: int, u: int, v: int, width: int, height: int, pixelStride: nat, rowStride: nat): (off: int)
    requires width >= 1 && height >= 1
    ensures 0 <= off <= MaxOffset(width, height, pixelStride, rowStride)
  {
    var u2 := ClampIndex(x + u - 1, width);
    var v2 := ClampIndex(y + v - 1, height);
    MulMono(u2, width - 1, pixelStride);
    MulMono(0, u2, pixelStride);
    MulMono(v2, height - 1, rowStride);
    MulMono(0, v2, rowStride);
    u2 * pixelStride + v2 * rowStride
  }

  /** The nine samples around pixel (x, y), sample (u, v) at 3 * u + v. */
  function Neighbourhood(plane: seq<uint8>, pixelStride: nat, rowStride: nat, width: int, height: int, x: int, y: int): (nb: seq<int>)
    requires width >= 1 && height >= 1 && MaxOffset(width, height, pixelStride, rowStride) < |plane|
    ensures |nb| == 9
  {
    seq(9, t requires 0 <= t < 9 => plane[SampleOffset(x, y, t / 3, t % 3, width, height, pixelStride, rowStride)] as int)
  }

  /** The sum of the first k sample-times-weight products, in loop order. */
  function Correlate(samples: seq<int>, kernel: seq<int>, k: nat): int
    requires k <= |samples| && k <= |kernel|
  {
    if k == 0 then 0 else Correlate(samples, kernel, k - 1) + samples[k - 1] * kernel[k - 1]
  }

  /** The source's clamp of MagnitudeInt: first above 255, then below 0. */
  function ClampMagnitude(m: int): (r: int)
    ensures 0 <= r <= 255
    ensures 0 <= m <= 255 ==> r == m
    ensures m > 255 ==> r == 255
    ensures m < 0 ==> r == 0
  {
    var high := if m > 255 then 255 else m;
    if high < 0 then 0 else high
  }

  /** The four-byte replication on a 32-bit word. */
  function PackWord(b: bv32): (w: bv32)
    requires b < 256
    ensures w == b * 0x0101_0101
    ensures w & 0xFF == b && (w >> 8) & 0xFF == b && (w >> 16) & 0xFF == b && w >> 24 == b
  {
    b | (b << 8) | (b << 16) | (b << 24)
  }

  /** MagnitudeInt | MagnitudeInt << 8 | MagnitudeInt << 16 | MagnitudeInt << 24. */
  function Pack(m: int): (w: bv32)
    requires 0 <= m <= 255
    ensures w == (m as bv32) * 0x0101_0101
    ensures w & 0xFF == m as bv32 && (w >> 8) & 0xFF == m as bv32
    ensures (w >> 16) & 0xFF == m as bv32 && w >> 24 == m as bv32
  {
    PackWord(m as bv32)
  }

  /** The output word for a neighbourhood. */
  function EdgeWord(quantize: int -> int, nb: seq<int>): (w: bv32)
    requires |nb| == 9
    // the word is one byte replicated four times
    ensures w == (w & 0xFF) * 0x0101_0101
  {
    var gx := Correlate(nb, XKernel, 9);
    var gy := Correlate(nb, YKernel, 9);
    Pack(ClampMagnitude(quantize(gx * gx + gy * gy)))
  }

  /** The output word for pixel (x, y). */
  function SobelPixel(plane: seq<uint8>, pixelStride: nat, rowStride: nat, width: int, height: int,
                      quantize: int -> int, x: int, y: int): (w: bv32)
    requires width >= 1 && height >= 1 && MaxOffset(width, height, pixelStride, rowStride) < |plane|
    ensures w == (w & 0xFF) * 0x0101_0101
  {
    EdgeWord(quantize, Neighbourhood(plane, pixelStride, rowStride, width, height, x, y))
  }

  /** The number of output slots written: Width * Height, or none when either is not positive. */
  function PixelCount(width: int, height: int): nat
  {
    if width >= 1 && height >= 1 then width * height else 0
  }

  lemma RowMajorIndex(x: int, y: int, width: int, height: int)
    requires 0 <= x < width && 0 <= y < height
    ensures 0 <= y * width + x < width * height
    ensures (y * width + x) / width == y && (y * width + x) % width == x
  {
    var k := y * width + x;
    MulMono(y + 1, height, width);
    MulMono(0, y, width);
    var q, r := k / width, k % width;
    assert k == q * width + r;
    if q > y { MulMono(y + 1, q, width); assert false; }
    if q < y { MulMono(q + 1, y, width); assert false; }
  }

  /** One read of the two inner loops: sample (u, v) of pixel (x, y), with
      the coordinates clamped to the image. */
  method ReadSample(inYPlaneData: array<uint8>, pixelStride: nat, rowStride: nat, width: int, height: int,
                    x: int, y: int, u: int, v: int)
    returns (sourcePixel: uint8)
    requires width >= 1 && height >= 1 && MaxOffset(width, height, pixelStride, rowStride) < inYPlaneData.Length
    requires 0 <= u < 3 && 0 <= v < 3
    ensures sourcePixel as int == Neighbourhood(inYPlaneData[..], pixelStride, rowStride, width, height, x, y)[3 * u + v]
  {
    var u2 := x + u - 1;
    var v2 := y + v - 1;
    if u2 < 0 { u2 := 0; }
    if u2 >= width { u2 := width - 1; }
    if v2 < 0 { v2 := 0; }
    if v2 >= height { v2 := height - 1; }
    assert u2 * pixelStride + v2 * rowStride == SampleOffset(x, y, u, v, width, height, pixelStride, rowStride);
    sourcePixel := inYPlaneData[u2 * pixelStride + v2 * rowStride];
    // entry 3 * u + v of the neighbourhood is the sample at offsets (u, v)
    RowMajorIndex(v, u, 3, 3);
    assert (3 * u + v) / 3 == u && (3 * u + v) % 3 == v;
  }

  /** The two inner loops: the gradient sums of one pixel. */
  method PixelGradients(inYPlaneData: array<uint8>, pixelStride: nat, rowStride: nat, width: int, height: int, x: int, y: int)
    returns (xMag: int, yMag: int)
    requires width >= 1 && height >= 1 && MaxOffset(width, height, pixelStride, rowStride) < inYPlaneData.Length
    ensures xMag == Correlate(Neighbourhood(inYPlaneData[..], pixelStride, rowStride, width, height, x, y), XKernel, 9)
    ensures yMag == Correlate(Neighbourhood(inYPlaneData[..], pixelStride, rowStride, width, height, x, y), YKernel, 9)
  {
    ghost var nb := Neighbourhood(inYPlaneData[..], pixelStride, rowStride, width, height, x, y);
    xMag, yMag := 0, 0;
    var u := 0;
    while u < 3
      invariant 0 <= u <= 3
      invariant xMag == Correlate(nb, XKernel, 3 * u) && yMag == Correlate(nb, YKernel, 3 * u)
    {
      var v := 0;
      while v < 3
        invariant 0 <= v <= 3
        invariant xMag == Correlate(nb, XKernel, 3 * u + v) && yMag == Correlate(nb, YKernel, 3 * u + v)
      {
        var sourcePixel := ReadSample(inYPlaneData, pixelStride, rowStride, width, height, x, y, u, v);
        xMag := xMag + sourcePixel as int * XKernel[3 * u + v];
        yMag := yMag + sourcePixel as int * YKernel[3 * u + v];
        v := v + 1;
      }
      u := u + 1;
    }
  }

  /** The body of the two outer loops for one pixel: gradients, magnitude,
      clamp and packing. */
  method FilterPixel(inYPlaneData: array<uint8>, pixelStride: nat, rowStride: nat, width: int, height: int,
                     quantize: int -> int, x: int, y: int)
    returns (word: bv32)
    requires width >= 1 && height >= 1 && MaxOffset(width, height, pixelStride, rowStride) < inYPlaneData.Length
    ensures word == SobelPixel(inYPlaneData[..], pixelStride, rowStride, width, height, quantize, x, y)
  {
    var xMag, yMag := PixelGradients(inYPlaneData, pixelStride, rowStride, width, height, x, y);

    var magnitudeInt := quantize(xMag * xMag + yMag * yMag);
    if magnitudeInt > 255 { magnitudeInt := 255; }
    if magnitudeInt < 0 { magnitudeInt := 0; }

    assert magnitudeInt == ClampMagnitude(quantize(xMag * xMag + yMag * yMag));
    word := PackWord(magnitudeInt as bv32);
  }

  /** The first n output slots hold their pixels' words. */
  ghost predicate Filled(out: seq<bv32>, n: int, plane: seq<uint8>, pixelStride: nat, rowStride: nat,
                         width: int, height: int, quantize: int -> int)
  {
    && 0 <= n <= |out|
    && (n > 0 ==> width >= 1 && height >= 1 && MaxOffset(width, height, pixelStride, rowStride) < |plane|)
    && forall k :: 0 <= k < n ==>
         out[k] == SobelPixel(plane, pixelStride, rowStride, width, height, quantize, k % width, k / width)
  }

  lemma FilledStep(out: seq<bv32>, n: int, plane: seq<uint8>, pixelStride: nat, rowStride: nat,
                   width: int, height: int, quantize: int -> int, x: int, y: int, word: bv32)
    requires Filled(out, n, plane, pixelStride, rowStride, width, height, quantize)
    requires 0 <= x < width && 0 <= y < height && n == y * width + x && n < |out|
    requires MaxOffset(width, height, pixelStride, rowStride) < |plane|
    requires word == SobelPixel(plane, pixelStride, rowStride, width, height, quantize, x, y)
    ensures Filled(out[n := word], n + 1, plane, pixelStride, rowStride, width, height, quantize)
  {
    RowMajorIndex(x, y, width, height);
  }

  /** The number of slots filled before row y: y * Width, or none for an empty row. */
  function RowStart(width: int, y: int): int
  {
    if width >= 1 then y * width else 0
  }

  /** The body of the outer loop: the inner loop over row y, which fills
      slots RowStart(y) to RowStart(y + 1) - 1 and no other. */
  method FilterRow(inYPlaneData: array<uint8>, pixelStride: nat, rowStride: nat, outPixels: array<bv32>,
                   width: int, height: int, quantize: int -> int, y: int)
    requires 0 <= y < height
    requires width >= 1 ==>
      MaxOffset(width, height, pixelStride, rowStride) < inYPlaneData.Length && width * height <= outPixels.Length
    requires inYPlaneData as object != outPixels as object
    requires Filled(outPixels[..], RowStart(width, y), inYPlaneData[..], pixelStride, rowStride, width, height, quantize)
    modifies outPixels
    ensures Filled(outPixels[..], RowStart(width, y + 1), inYPlaneData[..], pixelStride, rowStride, width, height, quantize)
    ensures forall k :: RowStart(width, y + 1) <= k < outPixels.Length ==> outPixels[k] == old(outPixels[k])
  {
    ghost var plane := inYPlaneData[..];
    // the number of slots filled so far, the row-major index of the next pixel
    ghost var filled: nat := RowStart(width, y);
    var x := 0;
    while x < width
      invariant 0 <= x && (width >= 0 ==> x <= width)
      invariant filled == if width >= 1 then y * width + x else 0
      invariant inYPlaneData[..] == plane
      invariant Filled(outPixels[..], filled, plane, pixelStride, rowStride, width, height, quantize)
      invariant forall k :: filled <= k < outPixels.Length ==> outPixels[k] == old(outPixels[k])
    {
      RowMajorIndex(x, y, width, height);
      var word := FilterPixel(inYPlaneData, pixelStride, rowStride, width, height, quantize, x, y);
      FilledStep(outPixels[..], filled, plane, pixelStride, rowStride, width, height, quantize, x, y, word);
      outPixels[y * width + x] := word;
      filled := filled + 1;
      x := x + 1;
    }
    assert filled == RowStart(width, y + 1);
  }

  /** The filter. Callers supply a plane longer than MaxOffset and an output
      buffer of at least Width * Height words; the plane is only read. */
  method SobelEdgeDetection(inYPlaneData: array<uint8>, pixelStride: nat, rowStride: nat, outPixels: array<bv32>,
                            width: int, height: int, quantize: int -> int)
    requires width >= 1 && height >= 1 ==>
      MaxOffset(width, height, pixelStride, rowStride) < inYPlaneData.Length && width * height <= outPixels.Length
    // a byte plane and a word buffer are distinct storage
    requires inYPlaneData as object != outPixels as object
    modifies outPixels
    // slot k of [0, Width * Height) holds the word of pixel (k mod Width, k div Width)
    ensures forall k :: 0 <= k < PixelCount(width, height) ==>
      outPixels[k] == SobelPixel(inYPlaneData[..], pixelStride, rowStride, width, height, quantize, k % width, k / width)
    // nothing beyond is written
    ensures forall k :: PixelCount(width, height) <= k < outPixels.Length ==> outPixels[k] == old(outPixels[k])
  {
    var y := 0;
    while y < height
      invariant 0 <= y && (height >= 0 ==> y <= height)
      invariant RowStart(width, y) <= PixelCount(width, height)
      invariant Filled(outPixels[..], RowStart(width, y), inYPlaneData[..], pixelStride, rowStride, width, height, quantize)
      invariant forall k :: RowStart(width, y) <= k < outPixels.Length ==> outPixels[k] == old(outPixels[k])
    {
      assert RowStart(width, y + 1) <= PixelCount(width, height) by {
        if width >= 1 { MulMono(y + 1, height, width); }
      }
      FilterRow(inYPlaneData, pixelStride, rowStride, outPixels, width, height, quantize, y);
      y := y + 1;
    }
    assert y >= 1 ==> RowStart(width, y) == PixelCount(width, height);
  }

  // ---------------------------------------------------------------------
  // Properties of the kernel.

  /** The sum of the first k weights of a kernel. */
  function WeightSum(kernel: seq<int>, k: nat): int
    requires k <= |kernel|
  {
    if k == 0 then 0 else WeightSum(kernel, k - 1) + kernel[k - 1]
  }

  lemma {:induction false} CorrelateConstant(samples: seq<int>, kernel: seq<int>, k: nat, c: int)
    requires k <= |samples| && k <= |kernel|
    requires forall t :: 0 <= t < k ==> samples[t] == c
    ensures Correlate(samples, kernel, k) == c * WeightSum(kernel, k)
  {
    if k > 0 {
      CorrelateConstant(samples, kernel, k - 1, c);
    }
  }

  /** Both kernels' weights sum to zero, so a flat image has no edges: every
      output word is 0, whatever the image's level. Only the pixels of the
      image need that level; row padding and interleaved bytes of a strided
      plane may hold anything. */
  lemma UniformImageHasNoEdges(plane: seq<uint8>, pixelStride: nat, rowStride: nat, width: int, height: int,
                               quantize: int -> int, x: int, y: int, level: uint8)
    requires width >= 1 && height >= 1 && MaxOffset(width, height, pixelStride, rowStride) < |plane|
    requires forall px, py :: 0 <= px < width && 0 <= py < height && px * pixelStride + py * rowStride < |plane| ==>
      plane[px * pixelStride + py * rowStride] == level
    requires quantize(0) == 0
    ensures SobelPixel(plane, pixelStride, rowStride, width, height, quantize, x, y) == 0
  {
    var nb := Neighbourhood(plane, pixelStride, rowStride, width, height, x, y);
    UniformNeighbourhood(plane, pixelStride, rowStride, width, height, x, y, level);
    FlatNeighbourhoodWord(quantize, nb, level as int);
  }

  /** A neighbourhood of one level gives word 0: both gradients vanish. */
  lemma FlatNeighbourhoodWord(quantize: int -> int, nb: seq<int>, c: int)
    requires |nb| == 9 && forall t :: 0 <= t < 9 ==> nb[t] == c
    requires quantize(0) == 0
    ensures EdgeWord(quantize, nb) == 0
  {
    CorrelateConstant(nb, XKernel, 9, c);
    CorrelateConstant(nb, YKernel, 9, c);
    assert WeightSum(XKernel, 9) == 0;
    assert WeightSum(YKernel, 9) == 0;
    assert Pack(0) == 0;
  }

  /** In an image of one level every clamped sample has that level. */
  lemma UniformNeighbourhood(plane: seq<uint8>, pixelStride: nat, rowStride: nat, width: int, height: int,
                             x: int, y: int, level: uint8)
    requires width >= 1 && height >= 1 && MaxOffset(width, height, pixelStride, rowStride) < |plane|
    requires forall px, py :: 0 <= px < width && 0 <= py < height && px * pixelStride + py * rowStride < |plane| ==>
      plane[px * pixelStride + py * rowStride] == level
    ensures forall t :: 0 <= t < 9 ==> Neighbourhood(plane, pixelStride, rowStride, width, height, x, y)[t] == level as int
  {
    var nb := Neighbourhood(plane, pixelStride, rowStride, width, height, x, y);
    forall t | 0 <= t < 9 ensures nb[t] == level as int {
      var u2 := ClampIndex(x + t / 3 - 1, width);
      var v2 := ClampIndex(y + t % 3 - 1, height);
      assert SampleOffset(x, y, t / 3, t % 3, width, height, pixelStride, rowStride) == u2 * pixelStride + v2 * rowStride;
      assert plane[u2 * pixelStride + v2 * rowStride] == level;
    }
  }

  /** Pixel (x, y) depends on its clamped 3x3 neighbourhood only: two planes
      that agree on those nine samples give the same output word. */
  lemma SobelPixelIsLocal(p1: seq<uint8>, p2: seq<uint8>, pixelStride: nat, rowStride: nat, width: int, height: int,
                          quantize: int -> int, x: int, y: int)
    requires width >= 1 && height >= 1
    requires MaxOffset(width, height, pixelStride, rowStride) < |p1| && MaxOffset(width, height, pixelStride, rowStride) < |p2|
    requires forall u, v :: 0 <= u < 3 && 0 <= v < 3 ==>
      p1[SampleOffset(x, y, u, v, width, height, pixelStride, rowStride)] ==
      p2[SampleOffset(x, y, u, v, width, height, pixelStride, rowStride)]
    ensures SobelPixel(p1, pixelStride, rowStride, width, height, quantize, x, y) ==
            SobelPixel(p2, pixelStride, rowStride, width, height, quantize, x, y)
  {
    var n1 := Neighbourhood(p1, pixelStride, rowStride, width, height, x, y);
    var n2 := Neighbourhood(p2, pixelStride, rowStride, width, height, x, y);
    forall t | 0 <= t < 9 ensures n1[t] == n2[t] {
      var u, v := t / 3, t % 3;
      assert p1[SampleOffset(x, y, u, v, width, height, pixelStride, rowStride)] ==
             p2[SampleOffset(x, y, u, v, width, height, pixelStride, rowStride)];
    }
    assert n1 == n2;
  }
}
