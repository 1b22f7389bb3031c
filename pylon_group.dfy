/**
 * The accumulator of one flood-fill of head pylons: sums of positions, a count
 * and the range of the last pylon registered. It turns into a Head.
 */
module PylonGroups {
  import opened Numerics
  import opened Heads
  import opened Pylons

  /** Sum of the column positions of the given pylons. */
  function SumX(ms: seq<Pylon>): int
  {
    if ms == [] then 0 else SumX(ms[..|ms| - 1]) + ms[|ms| - 1].ImgX
  }

  /** Sum of the row positions of the given pylons. */
  function SumY(ms: seq<Pylon>): int
  {
    if ms == [] then 0 else SumY(ms[..|ms| - 1]) + ms[|ms| - 1].ImgY
  }

  class PylonGroup {
    var SumPylonX: int
    var SumPylonY: int
    var PylonCount: int
    var GroupRange: byte
    /** The pylons registered so far, in order. */
    ghost var Members: seq<Pylon>

    ghost predicate Valid()
      reads this
    {
      PylonCount == |Members| && SumPylonX == SumX(Members) && SumPylonY == SumY(Members)
    }

    /** An empty group: every field zero. */
    constructor ()
      ensures Valid() && Members == []
      ensures SumPylonX == 0 && SumPylonY == 0 && PylonCount == 0 && GroupRange == 0
    {
      SumPylonX := 0;
      SumPylonY := 0;
      PylonCount := 0;
      GroupRange := 0;
      Members := [];
    }

    /**
     * Adds a pylon: marks it grouped, counts it, adds its position to the sums
     * and takes its range as the group's range.
     */
    method Register(pylon: Pylon)
      requires Valid()
      modifies this, pylon
      ensures Valid() && Members == old(Members) + [pylon]
      ensures PylonCount == old(PylonCount) + 1
      ensures SumPylonX == old(SumPylonX) + pylon.ImgX && SumPylonY == old(SumPylonY) + pylon.ImgY
      ensures GroupRange == pylon.Range
      ensures pylon.IsGrouped && pylon.Range == old(pylon.Range) && pylon.IsHead == old(pylon.IsHead)
    {
      pylon.IsGrouped := true;
      PylonCount := PylonCount + 1;
      GroupRange := pylon.Range;
      SumPylonX := SumPylonX + pylon.ImgX;
      SumPylonY := SumPylonY + pylon.ImgY;
      Members := Members + [pylon];
      assert Members[..|Members| - 1] == old(Members);
    }

    /**
     * The head of this group: its range and the integer centroid of its
     * members, each coordinate the sum divided by the count, rounded toward zero.
     */
    function ToHead(): (h: Head)
      reads this
      requires PylonCount > 0
      ensures h.Range == GroupRange
      ensures Abs(h.CenterX * PylonCount) <= Abs(SumPylonX) < Abs(h.CenterX * PylonCount) + PylonCount
      ensures Abs(h.CenterY * PylonCount) <= Abs(SumPylonY) < Abs(h.CenterY * PylonCount) + PylonCount
      ensures SumPylonX >= 0 ==> h.CenterX >= 0
      ensures SumPylonY >= 0 ==> h.CenterY >= 0
    {
      var headCenterX := DivTrunc(SumPylonX, PylonCount);
      var headCenterY := DivTrunc(SumPylonY, PylonCount);
      Head(GroupRange, headCenterX, headCenterY)
    }
  }

  lemma {:induction false} SumXBounds(ms: seq<Pylon>, lo: int, hi: int)
    requires forall i :: 0 <= i < |ms| ==> lo <= ms[i].ImgX <= hi
    ensures |ms| * lo <= SumX(ms) <= |ms| * hi
  {
    if ms != [] {
      SumXBounds(ms[..|ms| - 1], lo, hi);
      assert |ms| * lo == (|ms| - 1) * lo + lo && |ms| * hi == (|ms| - 1) * hi + hi;
    }
  }

  lemma {:induction false} SumYBounds(ms: seq<Pylon>, lo: int, hi: int)
    requires forall i :: 0 <= i < |ms| ==> lo <= ms[i].ImgY <= hi
    ensures |ms| * lo <= SumY(ms) <= |ms| * hi
  {
    if ms != [] {
      SumYBounds(ms[..|ms| - 1], lo, hi);
      assert |ms| * lo == (|ms| - 1) * lo + lo && |ms| * hi == (|ms| - 1) * hi + hi;
    }
  }

  /** For n > 0, a sum in [n*lo, n*hi] truncated-divided by n lies in [lo, hi]. */
  lemma AverageWithin(sum: int, n: int, lo: int, hi: int)
    requires n > 0 && 0 <= lo && n * lo <= sum <= n * hi
    ensures lo <= DivTrunc(sum, n) <= hi
  {
    assert 0 <= n * lo by { MulLe(0, lo, n); }
    var q := sum / n;
    assert DivTrunc(sum, n) == q;
    assert q * n <= sum < q * n + n by {
      assert sum == n * q + sum % n && 0 <= sum % n < n;
    }
    if q > hi {
      MulLe(hi + 1, q, n);
      assert false;
    }
    if q < lo {
      MulLe(q + 1, lo, n);
      assert false;
    }
  }

  lemma MulLe(a: int, b: int, n: int)
    requires a <= b && n >= 0
    ensures a * n <= b * n
  {
    assert b * n - a * n == (b - a) * n;
  }

  /**
   * The head of a group lies within the bounding box of its members: the
   * centroid never falls outside the pylons it was computed from.
   */
  lemma CentreWithinMembers(g: PylonGroup, loX: int, hiX: int, loY: int, hiY: int)
    requires g.Valid() && g.PylonCount > 0 && 0 <= loX && 0 <= loY
    requires forall i :: 0 <= i < |g.Members| ==> loX <= g.Members[i].ImgX <= hiX && loY <= g.Members[i].ImgY <= hiY
    ensures loX <= g.ToHead().CenterX <= hiX && loY <= g.ToHead().CenterY <= hiY
  {
    SumXBounds(g.Members, loX, hiX);
    SumYBounds(g.Members, loY, hiY);
    AverageWithin(g.SumPylonX, g.PylonCount, loX, hiX);
    AverageWithin(g.SumPylonY, g.PylonCount, loY, hiY);
  }
}
