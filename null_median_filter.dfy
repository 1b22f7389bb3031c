/**
 * The pass-through filter: it reports a radius and a sampling step of 1 and
 * returns the raw pixel under the probe.
 */
module NullMedianFilter {
  import opened Numerics

  /** Kernel radius reported to the detector (used for its inside-the-image test). */
  const Radius: int := 1

  /** Sampling step reported to the detector. */
  const Step: int := 1

  /**
   * The raw byte at column imgX of row imgY of a buffer with the given stride:
   * the pixel under the probe, left unfiltered.
   */
  function Calculate(imgX: int, imgY: int, scan0: seq<byte>, stride: int): (r: byte)
    requires 0 <= imgY * stride + imgX < |scan0|
    ensures r == scan0[imgY * stride + imgX]
  {
    scan0[imgY * stride + imgX]
  }

  /** The result is the pixel at offset imgY*stride + imgX and depends on no other byte. */
  lemma CalculateReadsOnlyItsPixel(imgX: int, imgY: int, a: seq<byte>, b: seq<byte>, stride: int)
    requires 0 <= imgY * stride + imgX < |a| && imgY * stride + imgX < |b|
    requires a[imgY * stride + imgX] == b[imgY * stride + imgX]
    ensures Calculate(imgX, imgY, a, stride) == Calculate(imgX, imgY, b, stride) == a[imgY * stride + imgX]
  {
  }
}
