/**
 * The histogram quantile filter. It counts the 8-bit values of a square kernel
 * of side 2*Radius+1 around a pixel, taking every Step-th row and column, into
 * 256 buckets, then returns the first value whose cumulative count exceeds the
 * precomputed integer target QuantileCount.
 */
module FastMedianFilter {
  import opened Numerics

  /*
   * Kernel geometry
   */

  /** How many of x0, x0+step, x0+2*step, ... fall within a span of `side` pixels: ceil(side/step). */
  function SampleCount(side: int, step: int): (n: nat)
    requires side >= 1 && step >= 1
    ensures n >= 1
    ensures (n - 1) * step < side <= n * step
  {
    var n := (side + step - 1) / step;
    CeilingBounds(side, step, n);
    n
  }

  lemma CeilingBounds(side: int, step: int, n: int)
    requires side >= 1 && step >= 1 && n == (side + step - 1) / step
    ensures n >= 1 && (n - 1) * step < side <= n * step
  {
    var m := side + step - 1;
    assert n * step <= m < n * step + step;
    assert (n - 1) * step == n * step - step;
  }

  /** The count in SampleCount is the only one that covers the span without overshooting a whole step. */
  lemma SampleCountUnique(side: int, step: int, i: int)
    requires side >= 1 && step >= 1 && i >= 0
    requires (i - 1) * step < side <= i * step
    ensures i == SampleCount(side, step)
  {
    var n := SampleCount(side, step);
    if i < n {
      MulMonotone(i, n - 1, step);
    } else if i > n {
      MulMonotone(n, i - 1, step);
    }
  }

  /** Removing one step from a span longer than a step removes exactly one sample. */
  lemma SampleCountNext(span: int, step: int)
    requires step >= 1 && span >= 1
    ensures span > step ==> SampleCount(span, step) == SampleCount(span - step, step) + 1
    ensures span <= step ==> SampleCount(span, step) == 1
  {
    if span > step {
      var n := SampleCount(span - step, step);
      assert (n - 1) * step < span - step <= n * step;
      assert n * step == (n - 1) * step + step && (n + 1) * step == n * step + step;
      SampleCountUnique(span, step, n + 1);
    } else {
      SampleCountUnique(span, step, 1);
    }
  }

  /** The kernel around (imgX, imgY) lies in a buffer of `len` bytes read with the given stride. */
  predicate KernelInBuffer(imgX: int, imgY: int, radius: int, len: int, stride: int)
  {
    && radius >= 0 && stride >= 0
    && imgX - radius >= 0 && imgY - radius >= 0
    && (imgY + radius) * stride + imgX + radius < len
  }

  /*
   * The samples, in the order the kernel is walked
   */

  /** Bytes at rowStart + x for x = x0, x0+step, ... up to maxX. */
  function RowSamples(buf: seq<byte>, rowStart: int, x: int, maxX: int, step: int): seq<byte>
    requires step >= 1
    requires x <= maxX ==> 0 <= rowStart + x && rowStart + maxX < |buf|
    decreases maxX - x
  {
    if x > maxX then [] else [buf[rowStart + x]] + RowSamples(buf, rowStart, x + step, maxX, step)
  }

  /** Rows y, y+step, ... up to maxY of the kernel, each sampled from minX to maxX. */
  function KernelRows(buf: seq<byte>, stride: int, y: int, maxY: int, minX: int, maxX: int, step: int): seq<byte>
    requires step >= 1 && stride >= 0 && 0 <= y && 0 <= minX <= maxX
    requires y <= maxY ==> maxY * stride + maxX < |buf|
    decreases maxY - y
  {
    if y > maxY then []
    else
      RowFits(y, maxY, stride);
      RowSamples(buf, y * stride, minX, maxX, step) + KernelRows(buf, stride, y + step, maxY, minX, maxX, step)
  }

  lemma RowFits(y: int, maxY: int, stride: int)
    requires 0 <= y <= maxY && stride >= 0
    ensures 0 <= y * stride <= maxY * stride
  {
    MulMonotone(y, maxY, stride);
  }

  /**
   * The samples the filter counts for the pixel (imgX, imgY): with a side of
   * 2*radius+1 and n = ceil(side/step), exactly n*n of them.
   */
  function Kernel(buf: seq<byte>, stride: int, imgX: int, imgY: int, radius: int, step: int): (k: seq<byte>)
    requires step >= 1 && KernelInBuffer(imgX, imgY, radius, |buf|, stride)
    ensures |k| == SampleCount(2 * radius + 1, step) * SampleCount(2 * radius + 1, step)
  {
    KernelRowsLength(buf, stride, imgY - radius, imgY + radius, imgX - radius, imgX + radius, step);
    KernelRows(buf, stride, imgY - radius, imgY + radius, imgX - radius, imgX + radius, step)
  }

  lemma {:induction false} RowSamplesLength(buf: seq<byte>, rowStart: int, x: int, maxX: int, step: int)
    requires step >= 1 && x <= maxX
    requires 0 <= rowStart + x && rowStart + maxX < |buf|
    ensures |RowSamples(buf, rowStart, x, maxX, step)| == SampleCount(maxX - x + 1, step)
    decreases maxX - x
  {
    SampleCountNext(maxX - x + 1, step);
    if x + step <= maxX {
      RowSamplesLength(buf, rowStart, x + step, maxX, step);
    }
  }

  lemma {:induction false} KernelRowsLength(buf: seq<byte>, stride: int, y: int, maxY: int, minX: int, maxX: int, step: int)
    requires step >= 1 && stride >= 0 && 0 <= y <= maxY && 0 <= minX <= maxX
    requires maxY * stride + maxX < |buf|
    ensures |KernelRows(buf, stride, y, maxY, minX, maxX, step)|
      == SampleCount(maxY - y + 1, step) * SampleCount(maxX - minX + 1, step)
    decreases maxY - y
  {
    var n := SampleCount(maxX - minX + 1, step);
    var total := SampleCount(maxY - y + 1, step);
    RowFits(y, maxY, stride);
    RowSamplesLength(buf, y * stride, minX, maxX, step);
    SampleCountNext(maxY - y + 1, step);
    var rest := KernelRows(buf, stride, y + step, maxY, minX, maxX, step);
    assert |KernelRows(buf, stride, y, maxY, minX, maxX, step)| == n + |rest|;
    if y + step <= maxY {
      KernelRowsLength(buf, stride, y + step, maxY, minX, maxX, step);
      var rows := SampleCount(maxY - (y + step) + 1, step);
      assert maxY - (y + step) + 1 == maxY - y + 1 - step;
      OneMoreRow(rows, n, total);
    } else {
      OneMoreRow(0, n, total);
    }
  }

  lemma OneMoreRow(rows: int, n: int, total: int)
    requires total == rows + 1
    ensures n + rows * n == total * n
  {
  }

  /**
   * The target count is taken from side*side/step/step, the probed area, but
   * the kernel holds ceil(side/step)^2 samples: the two agree for step 1 and
   * differ for radius 1 and step 2, where the area is 2 and the samples are 4.
   */
  lemma ProbedAreaVersusSamples(radius: nat)
    ensures (2 * radius + 1) * (2 * radius + 1) / 1 / 1 == SampleCount(2 * radius + 1, 1) * SampleCount(2 * radius + 1, 1)
    ensures 3 * 3 / 2 / 2 == 2 && SampleCount(3, 2) * SampleCount(3, 2) == 4
  {
    SampleCountUnique(2 * radius + 1, 1, 2 * radius + 1);
    SampleCountUnique(3, 2, 2);
  }

  /**
   * For any step the probed area side*side/step/step never exceeds the
   * number of samples the kernel walk takes.
   */
  lemma ProbedAreaAtMostSamples(radius: nat, step: int)
    requires step >= 1
    ensures (2 * radius + 1) * (2 * radius + 1) / step / step <= SampleCount(2 * radius + 1, step) * SampleCount(2 * radius + 1, step)
  {
    var side := 2 * radius + 1;
    var n := SampleCount(side, step);
    assert side * side <= (n * step) * (n * step) by {
      MulMonotone(side, n * step, side);
      MulMonotone(side, n * step, n * step);
    }
    assert (n * step) * (n * step) == (n * n * step) * step;
    DivAtMost(side * side, step, n * n * step);
    DivAtMost(side * side / step, step, n * n);
  }

  /** A value at most m*d, divided by d, is at most m. */
  lemma DivAtMost(x: nat, d: int, m: nat)
    requires d >= 1 && x <= m * d
    ensures x / d <= m
  {
    if x / d > m {
      assert (x / d) * d >= (m + 1) * d by { MulMonotone(m + 1, x / d, d); }
    }
  }

  /*
   * Where the pointer walk reads
   */

  /**
   * Offset read for sample i of sampled row j by the pointer walk as the filter
   * writes it: after each row the pointer moves on by Step*stride - side, as if
   * the row walk had advanced exactly `side` bytes; it advanced ceil(side/step)*step.
   */
  function WalkOffset(minX: int, minY: int, stride: int, side: int, step: int, j: int, i: int): int
    requires side >= 1 && step >= 1
  {
    minY * stride + minX + j * (step * stride - side + SampleCount(side, step) * step) + i * step
  }

  /** Offset of sample i of sampled row j of the kernel: row minY + j*step, column minX + i*step. */
  function KernelOffset(minX: int, minY: int, stride: int, step: int, j: int, i: int): int
  {
    (minY + j * step) * stride + minX + i * step
  }

  /** Row j of the walk as written is shifted right by j*(ceil(side/step)*step - side) bytes. */
  lemma WalkDrift(minX: int, minY: int, stride: int, side: int, step: int, j: int, i: int)
    requires side >= 1 && step >= 1
    ensures WalkOffset(minX, minY, stride, side, step, j, i)
      == KernelOffset(minX, minY, stride, step, j, i) + j * (SampleCount(side, step) * step - side)
  {
    var n := SampleCount(side, step);
    assert j * (step * stride - side + n * step) == j * step * stride + j * (n * step - side);
    assert (minY + j * step) * stride == minY * stride + j * step * stride;
  }

  /** When step divides the side (always for step 1) the walk reads exactly the kernel samples. */
  lemma WalkExactWhenStepDividesSide(minX: int, minY: int, stride: int, side: int, step: int, j: int, i: int)
    requires side >= 1 && step >= 1 && side % step == 0
    ensures WalkOffset(minX, minY, stride, side, step, j, i) == KernelOffset(minX, minY, stride, step, j, i)
  {
    WalkDrift(minX, minY, stride, side, step, j, i);
    SampleCountUnique(side, step, side / step);
  }

  /**
   * A 12x12 image with stride 12, a kernel of radius 4 at (7, 7) sampled with
   * step 2: the kernel lies inside the image, yet the walk as written reads
   * offset 147 of a 144-byte buffer for its last sample, where the kernel's
   * own last sample is at offset 143.
   */
  lemma WalkReadsPastBuffer()
    ensures KernelInBuffer(7, 7, 4, 12 * 12, 12)
    ensures SampleCount(9, 2) == 5
    ensures KernelOffset(3, 3, 12, 2, 4, 4) == 143
    ensures WalkOffset(3, 3, 12, 9, 2, 4, 4) == 147 >= 12 * 12
  {
    SampleCountUnique(9, 2, 5);
  }

  /** Every sample of the kernel, read as the kernel's rows and columns, lies inside the buffer. */
  lemma KernelOffsetInBuffer(imgX: int, imgY: int, radius: int, len: int, stride: int, step: int, j: int, i: int)
    requires step >= 1 && KernelInBuffer(imgX, imgY, radius, len, stride)
    requires 0 <= j < SampleCount(2 * radius + 1, step) && 0 <= i < SampleCount(2 * radius + 1, step)
    ensures 0 <= KernelOffset(imgX - radius, imgY - radius, stride, step, j, i) < len
  {
    var n := SampleCount(2 * radius + 1, step);
    MulMonotone(j, n - 1, step);
    MulMonotone(i, n - 1, step);
    var row := imgY - radius + j * step;
    assert 0 <= j * step && 0 <= i * step;
    RowFits(row, imgY + radius, stride);
  }

  /*
   * Histogram and selection
   */

  function Occurrences(s: seq<byte>, v: int): nat
  {
    if s == [] then 0 else (if s[0] == v then 1 else 0) + Occurrences(s[1..], v)
  }

  /** Number of samples whose value is at most v. */
  function CountAtMost(s: seq<byte>, v: int): nat
  {
    if s == [] then 0 else (if s[0] <= v then 1 else 0) + CountAtMost(s[1..], v)
  }

  function EmptyHistogram(): (h: seq<int>)
    ensures |h| == 256
  {
    seq(256, _ => 0)
  }

  /** The histogram `h` with one more count in the bucket of every value of `s`. */
  function Tally(h: seq<int>, s: seq<byte>): (r: seq<int>)
    requires |h| == 256
    ensures |r| == 256
    decreases s
  {
    if s == [] then h else Tally(h[s[0] := h[s[0]] + 1], s[1..])
  }

  lemma {:induction false} TallyConcat(h: seq<int>, a: seq<byte>, b: seq<byte>)
    requires |h| == 256
    ensures Tally(h, a + b) == Tally(Tally(h, a), b)
    decreases a
  {
    if a != [] {
      assert (a + b)[0] == a[0] && (a + b)[1..] == a[1..] + b;
      TallyConcat(h[a[0] := h[a[0]] + 1], a[1..], b);
    } else {
      assert a + b == b;
    }
  }

  /** Tallying the kernel rows from y on into h gives the target histogram. */
  ghost predicate RowsLeft(h: seq<int>, buf: seq<byte>, stride: int, y: int, maxY: int, minX: int, maxX: int, step: int, target: seq<int>)
  {
    && |h| == 256 && step >= 1 && stride >= 0 && 0 <= y && 0 <= minX <= maxX
    && (y <= maxY ==> maxY * stride + maxX < |buf|)
    && Tally(h, KernelRows(buf, stride, y, maxY, minX, maxX, step)) == target
  }

  /** Once row y is tallied, the rows after it are left. */
  lemma RowsLeftNext(h0: seq<int>, h1: seq<int>, buf: seq<byte>, stride: int, y: int, maxY: int, minX: int, maxX: int, step: int, target: seq<int>)
    requires RowsLeft(h0, buf, stride, y, maxY, minX, maxX, step, target) && y <= maxY
    requires 0 <= y * stride && y * stride + maxX < |buf|
    requires h1 == Tally(h0, RowSamples(buf, y * stride, minX, maxX, step))
    ensures RowsLeft(h1, buf, stride, y + step, maxY, minX, maxX, step, target)
  {
    TallyConcat(h0, RowSamples(buf, y * stride, minX, maxX, step), KernelRows(buf, stride, y + step, maxY, minX, maxX, step));
  }

  lemma NextRowStart(y: int, step: int, stride: int)
    ensures (y + step) * stride == y * stride + step * stride
  {
  }

  /** Bucket v of the tallied histogram holds its old count plus the occurrences of v. */
  lemma {:induction false} TallyCounts(h: seq<int>, s: seq<byte>, v: int)
    requires |h| == 256 && 0 <= v < 256
    ensures Tally(h, s)[v] == h[v] + Occurrences(s, v)
    decreases s
  {
    if s != [] {
      TallyCounts(h[s[0] := h[s[0]] + 1], s[1..], v);
    }
  }

  lemma {:induction false} CountAtMostStep(s: seq<byte>, v: int)
    ensures CountAtMost(s, v) == CountAtMost(s, v - 1) + Occurrences(s, v)
  {
    if s != [] {
      CountAtMostStep(s[1..], v);
    }
  }

  lemma {:induction false} CountAtMostBounds(s: seq<byte>, v: int)
    ensures v < 0 ==> CountAtMost(s, v) == 0
    ensures v >= 255 ==> CountAtMost(s, v) == |s|
    ensures CountAtMost(s, v) <= |s|
  {
    if s != [] {
      CountAtMostBounds(s[1..], v);
    }
  }

  /**
   * The quantile of the samples s for the target count q: for 0 <= q < |s|,
   * the least value with more than q samples at or below it, which is one of
   * the samples; 0 when q is negative or not below the number of samples.
   */
  function Quantile(s: seq<byte>, q: int): (r: byte)
    ensures 0 <= q < |s| ==> CountAtMost(s, r) > q && Occurrences(s, r) > 0
    ensures 0 <= q < |s| ==> forall w :: 0 <= w < r ==> CountAtMost(s, w) <= q
    ensures q < 0 || q >= |s| ==> r == 0
  {
    if 0 <= q < |s| then
      QuantileIsLeastAndSampled(s, q);
      QuantileFrom(s, q, 0)
    else if q >= |s| then
      QuantileNone(s, q);
      QuantileFrom(s, q, 0)
    else
      QuantileFrom(s, q, 0)
  }

  function QuantileFrom(s: seq<byte>, q: int, v: int): byte
    requires 0 <= v <= 256
    decreases 256 - v
  {
    if v == 256 then 0
    else if CountAtMost(s, v) > q then v
    else QuantileFrom(s, q, v + 1)
  }

  lemma {:induction false} QuantileFromIsLeast(s: seq<byte>, q: int, v: int)
    requires 0 <= v <= 256 && q < |s|
    requires forall w :: 0 <= w < v ==> CountAtMost(s, w) <= q
    ensures var r := QuantileFrom(s, q, v);
      v <= r && CountAtMost(s, r) > q && forall w :: 0 <= w < r ==> CountAtMost(s, w) <= q
    decreases 256 - v
  {
    if v == 256 {
      CountAtMostBounds(s, 255);
      assert false;
    } else if CountAtMost(s, v) <= q {
      QuantileFromIsLeast(s, q, v + 1);
    }
  }

  /**
   * For a target 0 <= q below the number of samples, the quantile is the least
   * value with more than q samples at or below it, and it is one of the samples.
   */
  lemma QuantileIsLeastAndSampled(s: seq<byte>, q: int)
    requires 0 <= q < |s|
    ensures CountAtMost(s, QuantileFrom(s, q, 0)) > q
    ensures forall w :: 0 <= w < QuantileFrom(s, q, 0) ==> CountAtMost(s, w) <= q
    ensures Occurrences(s, QuantileFrom(s, q, 0)) > 0
  {
    QuantileFromIsLeast(s, q, 0);
    var r := QuantileFrom(s, q, 0);
    CountAtMostStep(s, r);
    CountAtMostBounds(s, r as int - 1);
  }

  /** A value is found exactly when the target is below the number of samples; otherwise the scan gives 0. */
  lemma QuantileFoundIff(s: seq<byte>, q: int)
    ensures (exists v :: 0 <= v < 256 && CountAtMost(s, v) > q) <==> q < |s|
    ensures q >= |s| ==> QuantileFrom(s, q, 0) == 0
  {
    CountAtMostBounds(s, 255);
    if q >= |s| {
      QuantileNone(s, q);
    }
  }

  lemma QuantileNone(s: seq<byte>, q: int)
    requires q >= |s|
    ensures forall v :: 0 <= v < 256 ==> CountAtMost(s, v) <= q
    ensures QuantileFrom(s, q, 0) == 0
  {
    forall v | 0 <= v < 256 ensures CountAtMost(s, v) <= q {
      CountAtMostBounds(s, v);
    }
    QuantileFromNone(s, q, 0);
  }

  lemma {:induction false} QuantileFromNone(s: seq<byte>, q: int, v: int)
    requires 0 <= v <= 256
    requires forall w :: v <= w < 256 ==> CountAtMost(s, w) <= q
    ensures QuantileFrom(s, q, v) == 0
    decreases 256 - v
  {
    if v < 256 {
      QuantileFromNone(s, q, v + 1);
    }
  }

  /*
   * The filter object
   */

  class FastMedian {
    const Radius: int
    const Step: int
    const QuantileCount: int
    const Side: int
    const ProbedArea: int
    const Histogram: array<int>

    ghost predicate Valid()
    {
      Radius >= 0 && Step >= 1 && Side == 2 * Radius + 1 && Histogram.Length == 256
    }

    /**
     * A filter of the given radius and sampling step selecting the quantile
     * quantileNum/quantileDen: the target count is that fraction of the probed
     * area, rounded half to even.
     */
    constructor (radius: int, quantileNum: int, quantileDen: int, step: int)
      requires radius >= 0 && step >= 1 && quantileDen > 0
      ensures Valid() && fresh(Histogram)
      ensures Radius == radius && Step == step
      ensures Side == 2 * radius + 1 && ProbedArea == Side * Side / Step / Step
      ensures QuantileCount == RoundHalfEven(ProbedArea * quantileNum, quantileDen)
      ensures 2 * Abs(ProbedArea * quantileNum - QuantileCount * quantileDen) <= quantileDen
    {
      Radius := radius;
      Step := step;
      var side := radius * 2 + 1;
      Side := side;
      Histogram := new int[256];
      var kernelArea := side * side;
      var probedArea := kernelArea / step / step;
      ProbedArea := probedArea;
      QuantileCount := RoundHalfEven(probedArea * quantileNum, quantileDen);
    }

    /**
     * The filtered value of pixel (imgX, imgY): among the kernel's samples,
     * the least value with more than QuantileCount samples at or below it,
     * itself a sample; 0 when QuantileCount is negative or not below the
     * number of samples, n*n for n = ceil(Side/Step).
     */
    function Value(imgX: int, imgY: int, buf: seq<byte>, stride: int): (r: byte)
      requires Valid() && KernelInBuffer(imgX, imgY, Radius, |buf|, stride)
      ensures var k := Kernel(buf, stride, imgX, imgY, Radius, Step);
        0 <= QuantileCount < |k| ==>
          (CountAtMost(k, r) > QuantileCount && Occurrences(k, r) > 0 && forall w :: 0 <= w < r ==> CountAtMost(k, w) <= QuantileCount)
      ensures QuantileCount < 0 || QuantileCount >= SampleCount(Side, Step) * SampleCount(Side, Step) ==> r == 0
    {
      Quantile(Kernel(buf, stride, imgX, imgY, Radius, Step), QuantileCount)
    }

    /**
     * Clears the histogram, counts the kernel samples into it and scans the
     * buckets upward for the first cumulative count above QuantileCount.
     */
    method Calculate(imgX: int, imgY: int, scan0: array<byte>, stride: int) returns (r: byte)
      requires Valid() && KernelInBuffer(imgX, imgY, Radius, scan0.Length, stride)
      modifies Histogram
      ensures r == Value(imgX, imgY, scan0[..], stride)
    {
      ghost var samples := Kernel(scan0[..], stride, imgX, imgY, Radius, Step);
      CountKernel(imgX, imgY, scan0, stride);
      CountAtMostBounds(samples, -1);
      var count := 0;
      var v := 0;
      while v < 256
        invariant 0 <= v <= 256
        invariant Histogram[..] == Tally(EmptyHistogram(), samples)
        invariant count == CountAtMost(samples, v - 1)
        invariant QuantileFrom(samples, QuantileCount, v) == Quantile(samples, QuantileCount)
      {
        TallyCounts(EmptyHistogram(), samples, v);
        CountAtMostStep(samples, v);
        count := count + Histogram[v];
        if count > QuantileCount {
          return v;
        }
        v := v + 1;
      }
      return 0;
    }

    /** Clears the histogram and walks the kernel, counting every sample into its bucket. */
    method CountKernel(imgX: int, imgY: int, scan0: array<byte>, stride: int)
      requires Valid() && KernelInBuffer(imgX, imgY, Radius, scan0.Length, stride)
      modifies Histogram
      ensures Histogram[..] == Tally(EmptyHistogram(), Kernel(scan0[..], stride, imgX, imgY, Radius, Step))
    {
      ghost var buf := scan0[..];
      ghost var target := Tally(EmptyHistogram(), Kernel(buf, stride, imgX, imgY, Radius, Step));
      forall v | 0 <= v < Histogram.Length {
        Histogram[v] := 0;
      }
      assert Histogram[..] == EmptyHistogram();

      var minX := imgX - Radius;
      var maxX := imgX + Radius;
      var minY := imgY - Radius;
      var maxY := imgY + Radius;
      var n := SampleCount(Side, Step);
      var lineInc := Step * stride - n * Step;
      var imgPtr := minY * stride + minX;
      var y := minY;
      while y <= maxY
        invariant minY <= y
        invariant imgPtr == y * stride + minX
        invariant scan0[..] == buf
        invariant RowsLeft(Histogram[..], buf, stride, y, maxY, minX, maxX, Step, target)
        decreases maxY - y
      {
        ghost var h0 := Histogram[..];
        RowFits(y, maxY, stride);
        imgPtr := CountRow(scan0, buf, imgPtr, y * stride, minX, maxX);
        RowsLeftNext(h0, Histogram[..], buf, stride, y, maxY, minX, maxX, Step, target);
        NextRowStart(y, Step, stride);
        y := y + Step;
        imgPtr := imgPtr + lineInc;
      }
      assert Histogram[..] == target;
    }

    /**
     * Counts the samples of one kernel row, reading from imgPtr (the address of
     * column minX) onward, and returns the pointer just past the row's last
     * sample: ceil(Side/Step) steps further.
     */
    method CountRow(scan0: array<byte>, ghost buf: seq<byte>, imgPtr: int, rowStart: int, minX: int, maxX: int) returns (ptr: int)
      requires Valid() && scan0[..] == buf && maxX - minX + 1 == Side
      requires imgPtr == rowStart + minX && 0 <= rowStart + minX && rowStart + maxX < scan0.Length
      modifies Histogram
      ensures ptr == imgPtr + SampleCount(Side, Step) * Step
      ensures Histogram[..] == Tally(old(Histogram[..]), RowSamples(buf, rowStart, minX, maxX, Step))
    {
      ghost var target := Tally(Histogram[..], RowSamples(buf, rowStart, minX, maxX, Step));
      ptr := imgPtr;
      var x := minX;
      ghost var i := 0;
      while x <= maxX
        invariant minX <= x && x - minX == i * Step && 0 <= i
        invariant i == 0 ==> x == minX
        invariant i == 0 || (i - 1) * Step < Side
        invariant ptr == rowStart + x
        invariant Tally(Histogram[..], RowSamples(buf, rowStart, x, maxX, Step)) == target
        decreases maxX - x
      {
        ghost var before := Histogram[..];
        ghost var row := RowSamples(buf, rowStart, x, maxX, Step);
        assert row[0] == buf[ptr] && row[1..] == RowSamples(buf, rowStart, x + Step, maxX, Step);
        var value := scan0[ptr];
        Histogram[value] := Histogram[value] + 1;
        assert Histogram[..] == before[value := before[value] + 1];
        x := x + Step;
        ptr := ptr + Step;
        i := i + 1;
      }
      assert i * Step == (i - 1) * Step + Step;
      SampleCountUnique(Side, Step, i);
    }
  }
}
