/**
 * A pylon: a probe placed above one pixel of the range image. It keeps the
 * range read under it and two flags the detector's flood-fills lower and raise.
 */
module Pylons {
  import opened Numerics
  import FastMedianFilter

  /** The mutable part of a pylon together with its border flag, as one value. */
  datatype PylonState = PylonState(Range: byte, IsBorder: bool, IsHead: bool, IsGrouped: bool)
  {
    /**
     * Whether this pylon is a tail because of its neighbour: a border neighbour
     * never discards; a nearer neighbour always does; one on the same range
     * does only when it is itself a tail; a further one never does.
     */
    predicate IsDiscardedBy(adjacent: PylonState): (r: bool)
      ensures r ==> !adjacent.IsBorder && adjacent.Range <= Range
      ensures !adjacent.IsBorder && adjacent.Range < Range ==> r
      ensures !adjacent.IsBorder && adjacent.Range == Range && !adjacent.IsHead ==> r
      ensures adjacent.IsHead && adjacent.Range >= Range ==> !r
    {
      if adjacent.IsBorder then false
      else if adjacent.Range < Range then true
      else adjacent.Range == Range && !adjacent.IsHead
    }
  }

  /** A border neighbour never makes a pylon a tail. */
  lemma BorderNeverDiscards(p: PylonState, adjacent: PylonState)
    requires adjacent.IsBorder
    ensures !p.IsDiscardedBy(adjacent)
  {
  }

  /** Two heads on the same range never discard each other. */
  lemma EqualHeadsNeverDiscard(p: PylonState, q: PylonState)
    requires p.IsHead && q.IsHead && p.Range == q.Range
    ensures !p.IsDiscardedBy(q) && !q.IsDiscardedBy(p)
  {
  }

  /** Between two heads the relation is asymmetric: the nearer one discards the further one, never both. */
  lemma HeadsDiscardAsymmetric(p: PylonState, q: PylonState)
    requires p.IsHead && q.IsHead && p.IsDiscardedBy(q)
    ensures !q.IsDiscardedBy(p) && q.Range < p.Range
  {
  }

  /** A neighbour turning from head to tail can only make it discard more, never less. */
  lemma FallingNeighbourStillDiscards(p: PylonState, adjacent: PylonState)
    requires p.IsDiscardedBy(adjacent)
    ensures p.IsDiscardedBy(adjacent.(IsHead := false))
  {
  }

  class Pylon {
    /** Pixel position of the probe in the range image. */
    const ImgX: int
    const ImgY: int
    /** Border pylons are sentinels: never heads, never discarding. */
    const IsBorder: bool
    /** The grid cell the pylon was placed on. */
    ghost const Row: int
    ghost const Col: int

    var Range: byte
    var IsHead: bool
    var IsGrouped: bool

    /** Places a pylon over pixel (imgX, imgY) and resets it to the furthest range, 255. */
    constructor (imgX: int, imgY: int, isBorder: bool, ghost row: int, ghost col: int)
      ensures ImgX == imgX && ImgY == imgY && IsBorder == isBorder && Row == row && Col == col
      ensures Range == 255 && IsHead == !isBorder && !IsGrouped
      ensures IsBorder ==> !IsHead
    {
      ImgX := imgX;
      ImgY := imgY;
      IsBorder := isBorder;
      Row := row;
      Col := col;
      new;
      ResetAt(255);
    }

    /** Starts a new frame for this pylon: the given range, a head unless on the border, not grouped. */
    method ResetAt(range: byte)
      modifies this
      ensures Range == range && IsHead == !IsBorder && !IsGrouped
      ensures IsBorder ==> !IsHead
    {
      Range := range;
      IsHead := !IsBorder;
      IsGrouped := false;
    }

    function State(): PylonState
      reads this
    {
      PylonState(Range, IsBorder, IsHead, IsGrouped)
    }

    function IsDiscardedBy(adjacent: Pylon): bool
      reads this, adjacent
    {
      State().IsDiscardedBy(adjacent.State())
    }

    /**
     * Whether the square of the given radius around the probe lies inside a
     * w-by-h image: then the probe's own pixel is on the image, and the
     * square's side 2*radius+1 fits in both dimensions.
     */
    predicate IsInsideImage(radius: int, imgSizeX: int, imgSizeY: int): (r: bool)
      ensures r && radius >= 0 ==> 0 <= ImgX < imgSizeX && 0 <= ImgY < imgSizeY
      ensures r ==> 2 * radius + 1 <= imgSizeX && 2 * radius + 1 <= imgSizeY
    {
      ImgX - radius >= 0 && ImgX + radius < imgSizeX && ImgY - radius >= 0 && ImgY + radius < imgSizeY
    }

    /**
     * Inside an image whose rows of `stride` >= width bytes are all present in
     * the buffer, the kernel of that radius around the probe lies in the buffer.
     */
    lemma InsideImageKernelInBuffer(radius: int, imgSizeX: int, imgSizeY: int, len: int, stride: int)
      requires radius >= 0 && IsInsideImage(radius, imgSizeX, imgSizeY)
      requires imgSizeX <= stride && imgSizeY * stride <= len
      ensures FastMedianFilter.KernelInBuffer(ImgX, ImgY, radius, len, stride)
    {
      var maxY := ImgY + radius;
      assert (maxY + 1) * stride <= imgSizeY * stride by {
        MulMonotone(maxY + 1, imgSizeY, stride);
      }
      assert (maxY + 1) * stride == maxY * stride + stride;
    }
  }
}
