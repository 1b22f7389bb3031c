/**
 * The filter the detector applies at each interior pylon: either the
 * pass-through filter or a histogram quantile filter.
 */
module MedianFilters {
  import opened Numerics
  import NullMedianFilter
  import FastMedianFilter

  datatype MedianFilter = Null | Fast(Filter: FastMedianFilter.FastMedian)
  {
    ghost predicate Valid()
    {
      Fast? ==> Filter.Valid()
    }

    /** Kernel radius the detector uses for its inside-the-image test. */
    function Radius(): int
    {
      if Null? then NullMedianFilter.Radius else Filter.Radius
    }

    function Step(): int
    {
      if Null? then NullMedianFilter.Step else Filter.Step
    }

    /** What the filter may write: the quantile filter's histogram. */
    ghost function Repr(): set<object>
    {
      if Fast? then {Filter.Histogram} else {}
    }

    /**
     * The value the filter computes for pixel (imgX, imgY) of the buffer: the
     * pixel itself for the pass-through filter; for the quantile filter, one
     * of the kernel's samples, or 0 when the target count is out of range.
     */
    function Value(imgX: int, imgY: int, buf: seq<byte>, stride: int): (r: byte)
      requires Valid() && FastMedianFilter.KernelInBuffer(imgX, imgY, Radius(), |buf|, stride)
      ensures Null? ==> 0 <= imgY * stride + imgX < |buf| && r == buf[imgY * stride + imgX]
      ensures Fast? ==> r == 0 || FastMedianFilter.Occurrences(FastMedianFilter.Kernel(buf, stride, imgX, imgY, Radius(), Step()), r) > 0
    {
      if Null? then
        CentreInBuffer(imgX, imgY, Radius(), |buf|, stride);
        NullMedianFilter.Calculate(imgX, imgY, buf, stride)
      else
        Filter.Value(imgX, imgY, buf, stride)
    }

    /** Runs the chosen filter at pixel (imgX, imgY); the image buffer is never written. */
    method Calculate(imgX: int, imgY: int, scan0: array<byte>, stride: int) returns (r: byte)
      requires Valid() && FastMedianFilter.KernelInBuffer(imgX, imgY, Radius(), scan0.Length, stride)
      modifies Repr()
      ensures r == Value(imgX, imgY, scan0[..], stride)
    {
      if Null? {
        CentreInBuffer(imgX, imgY, Radius(), scan0.Length, stride);
        r := NullMedianFilter.Calculate(imgX, imgY, scan0[..], stride);
      } else {
        r := Filter.Calculate(imgX, imgY, scan0, stride);
      }
    }
  }

  /** The centre pixel of a kernel that lies in the buffer lies in it too. */
  lemma CentreInBuffer(imgX: int, imgY: int, radius: int, len: int, stride: int)
    requires FastMedianFilter.KernelInBuffer(imgX, imgY, radius, len, stride)
    ensures 0 <= imgY * stride + imgX < len
  {
    MulMonotone(imgY, imgY + radius, stride);
    MulMonotone(0, imgY, stride);
  }

  /** The pass-through filter's value is the pixel under the probe. */
  lemma NullValueIsPixel(imgX: int, imgY: int, buf: seq<byte>, stride: int)
    requires FastMedianFilter.KernelInBuffer(imgX, imgY, NullMedianFilter.Radius, |buf|, stride)
    ensures 0 <= imgY * stride + imgX < |buf|
    ensures Null.Value(imgX, imgY, buf, stride) == buf[imgY * stride + imgX]
  {
    CentreInBuffer(imgX, imgY, NullMedianFilter.Radius, |buf|, stride);
  }
}
