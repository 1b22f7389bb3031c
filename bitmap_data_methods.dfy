/**
 * Byte-level helpers over the locked pixel data of a bitmap: fill, copy, and
 * expansion of an 8-bit gray image into a 32-bit BGRA image. The pixel memory
 * that starts at Scan0 is an array of bytes; a walking pointer is an index into it.
 */
module BitmapDataMethods {
  import opened Numerics

  /** The geometry of a locked bitmap and the buffer that starts at its first scan line. */
  datatype BitmapData = BitmapData(Width: int, Height: int, Stride: int, Scan0: array<byte>)
  {
    /** Number of bytes covered by the Height rows of Stride bytes each. */
    function ByteCount(): int
    {
      Height * Stride
    }

    /** The lock guarantees that the buffer holds every row. */
    predicate Valid()
    {
      0 <= Width && 0 <= Height && ByteCount() <= Scan0.Length
    }
  }

  /** Result of an operation that checks its arguments first. */
  datatype Outcome = Done | ArgumentException(Message: string)

  /** Writes `value` into every byte at offsets 0 .. Height*Stride-1 and nowhere else. */
  method SetAllBytes(data: BitmapData, value: byte)
    requires data.Valid()
    modifies data.Scan0
    ensures forall i :: 0 <= i < data.Scan0.Length ==>
      data.Scan0[i] == if i < data.ByteCount() then value else old(data.Scan0[i])
  {
    var posI := 0;
    var posN := data.ByteCount();
    while posI < posN
      invariant 0 <= posI
      invariant posN <= 0 ==> posI == 0
      invariant posN > 0 ==> posI <= posN
      invariant forall i :: 0 <= i < data.Scan0.Length ==>
        data.Scan0[i] == if i < posI then value else old(data.Scan0[i])
    {
      data.Scan0[posI] := value;
      posI := posI + 1;
    }
  }

  /** The argument check of CopyTo: width, then height, then stride must agree. */
  function CheckCopyTo(src: BitmapData, dst: BitmapData): (r: Outcome)
    ensures r == Done <==> src.Width == dst.Width && src.Height == dst.Height && src.Stride == dst.Stride
    ensures src.Width != dst.Width ==> r == ArgumentException("Width")
    ensures src.Width == dst.Width && src.Height != dst.Height ==> r == ArgumentException("Height")
    ensures src.Width == dst.Width && src.Height == dst.Height && src.Stride != dst.Stride ==> r == ArgumentException("Stride")
  {
    if src.Width != dst.Width then ArgumentException("Width")
    else if src.Height != dst.Height then ArgumentException("Height")
    else if src.Stride != dst.Stride then ArgumentException("Stride")
    else Done
  }

  /**
   * Copies the first Height*Stride bytes of `src` into `dst` after checking that
   * both have the same geometry; nothing is written when the check fails.
   */
  method CopyTo(src: BitmapData, dst: BitmapData) returns (outcome: Outcome)
    requires src.Valid() && dst.Valid()
    modifies dst.Scan0
    ensures outcome == CheckCopyTo(src, dst)
    ensures outcome != Done ==> dst.Scan0[..] == old(dst.Scan0[..])
    ensures src.Scan0[..] == old(src.Scan0[..])
    ensures outcome == Done ==> forall i :: 0 <= i < dst.Scan0.Length ==>
      dst.Scan0[i] == if i < src.ByteCount() then old(src.Scan0[i]) else old(dst.Scan0[i])
  {
    outcome := CheckCopyTo(src, dst);
    if outcome != Done {
      return;
    }
    var opsCount := src.Height * src.Stride;
    var i := 0;
    while i < opsCount
      invariant 0 <= i && (opsCount > 0 ==> i <= opsCount) && (opsCount <= 0 ==> i == 0)
      invariant forall k :: 0 <= k < dst.Scan0.Length ==>
        dst.Scan0[k] == if k < i then old(src.Scan0[k]) else old(dst.Scan0[k])
      invariant src.Scan0 != dst.Scan0 ==> src.Scan0[..] == old(src.Scan0[..])
    {
      dst.Scan0[i] := src.Scan0[i];
      i := i + 1;
    }
  }

  /** The argument check of CopyGray8ToArgb: equal width and height, and four destination bytes per source byte of a row. */
  function CheckGray8ToArgb(src: BitmapData, dst: BitmapData): (r: Outcome)
    ensures r == Done <==> src.Width == dst.Width && src.Height == dst.Height && src.Stride == DivTrunc(dst.Stride, 4)
    ensures src.Width != dst.Width ==> r == ArgumentException("Width")
    ensures src.Width == dst.Width && src.Height != dst.Height ==> r == ArgumentException("Height")
    ensures src.Width == dst.Width && src.Height == dst.Height && src.Stride != DivTrunc(dst.Stride, 4) ==> r == ArgumentException("Stride")
  {
    if src.Width != dst.Width then ArgumentException("Width")
    else if src.Height != dst.Height then ArgumentException("Height")
    else if src.Stride != DivTrunc(dst.Stride, 4) then ArgumentException("Stride")
    else Done
  }

  /** The destination byte at offset k after expanding the gray bytes `gray` into BGRA quadruples. */
  function ArgbByte(gray: seq<byte>, k: nat): byte
    requires k / 4 < |gray|
  {
    if k % 4 == 3 then 255 else gray[k / 4]
  }

  /**
   * Expands each of the first Height*Stride gray bytes of `src` into a BGRA
   * quadruple (gray, gray, gray, 255) of `dst`, after the argument check.
   */
  method CopyGray8ToArgb(src: BitmapData, dst: BitmapData) returns (outcome: Outcome)
    requires src.Valid() && dst.Valid()
    requires src.Scan0 != dst.Scan0
    modifies dst.Scan0
    ensures outcome == CheckGray8ToArgb(src, dst)
    ensures outcome != Done ==> dst.Scan0[..] == old(dst.Scan0[..])
    ensures src.Scan0[..] == old(src.Scan0[..])
    ensures outcome == Done ==> forall k :: 0 <= k < dst.Scan0.Length ==>
      dst.Scan0[k] == if k < 4 * src.ByteCount() then ArgbByte(old(src.Scan0[..]), k) else old(dst.Scan0[k])
  {
    outcome := CheckGray8ToArgb(src, dst);
    if outcome != Done {
      return;
    }
    ghost var gray := src.Scan0[..];
    var opsCount := src.Height * src.Stride;
    if opsCount > 0 {
      QuadrupleFits(src, dst);
    }
    var srcPos := 0;
    var dstPos := 0;
    while srcPos < opsCount
      invariant 0 <= srcPos && (opsCount > 0 ==> srcPos <= opsCount) && (opsCount <= 0 ==> srcPos == 0)
      invariant dstPos == 4 * srcPos
      invariant src.Scan0[..] == gray
      invariant forall k :: 0 <= k < dst.Scan0.Length ==>
        dst.Scan0[k] == if k < dstPos then ArgbByte(gray, k) else old(dst.Scan0[k])
    {
      var srcVal := src.Scan0[srcPos];
      dst.Scan0[dstPos] := srcVal;
      dst.Scan0[dstPos + 1] := srcVal;
      dst.Scan0[dstPos + 2] := srcVal;
      dst.Scan0[dstPos + 3] := 255;
      dstPos := dstPos + 4;
      srcPos := srcPos + 1;
    }
  }

  /** When the check passes, the destination buffer holds four bytes for each source byte. */
  lemma QuadrupleFits(src: BitmapData, dst: BitmapData)
    requires src.Valid() && dst.Valid() && CheckGray8ToArgb(src, dst) == Done
    requires src.ByteCount() > 0
    ensures 4 * src.ByteCount() <= dst.Scan0.Length
  {
    assert src.Stride > 0 && src.Height > 0;
    assert dst.Stride >= 4 * src.Stride;
    assert dst.Height * dst.Stride >= dst.Height * (4 * src.Stride);
  }
}
