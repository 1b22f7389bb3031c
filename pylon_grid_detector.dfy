/**
 * The pylon grid head detector. Pylons sit on a uniform grid over the range
 * image, with a ring of sentinel pylons on the border. Each frame resets the
 * interior pylons from the image, discards every pylon that is not a local
 * range minimum by a recursive flood-fill, and merges the surviving head
 * pylons, one 4-connected component at a time, into heads.
 */
module PylonGridDetectors {
  import opened Numerics
  import opened Heads
  import opened Pylons
  import opened PylonGroups
  import opened MedianFilters
  import opened GridModel
  import FastMedianFilter
  import BitmapDataMethods

  /** The grid cell a pylon was placed on. */
  ghost function CellOf(p: Pylon): Cell
  {
    Cell(p.Row, p.Col)
  }

  ghost function CellsOf(ms: seq<Pylon>): (cs: seq<Cell>)
    ensures |cs| == |ms| && forall i :: 0 <= i < |ms| ==> cs[i] == CellOf(ms[i])
  {
    seq(|ms|, i requires 0 <= i < |ms| => CellOf(ms[i]))
  }

  /** The cells of a sequence of pylons. */
  ghost function MemberCells(ms: seq<Pylon>): set<Cell>
  {
    set i | 0 <= i < |ms| :: CellOf(ms[i])
  }

  predicate NoDuplicates<T(==)>(s: seq<T>)
  {
    forall i, j :: 0 <= i < j < |s| ==> s[i] != s[j]
  }

  /**
   * h is the head of a group whose members, in the order they were registered,
   * are ms, one pylon per cell of comp, each over the centre pixel of its cell
   * for pylons `step` pixels apart: its range is the range in S of the last
   * pylon registered, and its centre the mean of the members' pixel
   * positions, each coordinate rounded toward zero.
   */
  ghost predicate GroupHead(S: GridState, h: Head, ms: seq<Pylon>, comp: set<Cell>, step: int)
  {
    && |ms| > 0 && MemberCells(ms) == comp && NoDuplicates(CellsOf(ms))
    && (forall k :: 0 <= k < |ms| ==> ms[k].ImgX == ms[k].Col * step + step / 2 && ms[k].ImgY == ms[k].Row * step + step / 2)
    && CellOf(ms[|ms| - 1]) in S
    && h == Head(S[CellOf(ms[|ms| - 1])].Range, DivTrunc(SumX(ms), |ms|), DivTrunc(SumY(ms), |ms|))
  }

  /** Grouping changes no range, so a group's head reads the same before and after. */
  lemma GroupHeadAcrossGrouping(S0: GridState, S1: GridState, h: Head, ms: seq<Pylon>, comp: set<Cell>, step: int)
    requires GroupsOnlyRise(S0, S1)
    ensures GroupHead(S0, h, ms, comp, step) <==> GroupHead(S1, h, ms, comp, step)
  {
    GroupsOnlyRiseKeeps(S0, S1, 0, 0);
  }

  /** Appending a pylon of a cell not yet among the members keeps their cells distinct. */
  lemma AppendMember(ms: seq<Pylon>, p: Pylon, c: Cell)
    requires CellOf(p) == c && c !in MemberCells(ms) && NoDuplicates(CellsOf(ms))
    ensures MemberCells(ms + [p]) == MemberCells(ms) + {c}
    ensures NoDuplicates(CellsOf(ms + [p]))
  {
    var ns := ms + [p];
    assert forall i :: 0 <= i < |ms| ==> ns[i] == ms[i];
    assert ns[|ms|] == p;
    assert forall i :: 0 <= i < |ms| ==> CellsOf(ns)[i] == CellsOf(ms)[i];
  }

  /** The state every pylon has right after it is placed: furthest range, a head unless on the border, ungrouped. */
  function Placement(rows: int, cols: int, c: Cell): PylonState
  {
    PylonState(255, OnBorder(rows, cols, c), !OnBorder(rows, cols, c), false)
  }

  class PylonGridDetector {
    const ImgWidth: int
    const ImgHeight: int
    /** Pixels between neighbouring pylons. */
    const PyStep: int
    const Filter: MedianFilter
    const Grid: array2<Pylon?>
    const GridRows: int
    const GridCols: int
    /** The pylons on the grid. */
    ghost var Repr: set<Pylon>
    /** The states of the pylons, cell by cell. */
    ghost var Model: GridState

    /** The grid's dimensions follow from the image size and the pylon spacing. */
    ghost predicate Dimensioned()
    {
      && PyStep >= 3 && GridRows == ImgHeight / PyStep && GridCols == ImgWidth / PyStep
      && Grid.Length0 == GridRows && Grid.Length1 == GridCols
      && 0 <= ImgWidth && 0 <= ImgHeight && Filter.Valid()
    }

    /** Cell (r, c) holds its own pylon, at the pixel the spacing gives it, a border pylon exactly on the ring. */
    ghost predicate Placed(r: int, c: int)
      reads this`Repr, Grid
      requires 0 <= r < Grid.Length0 && 0 <= c < Grid.Length1
    {
      var p := Grid[r, c];
      && p != null && p in Repr && p.Row == r && p.Col == c
      && p.ImgX == c * PyStep + PyStep / 2 && p.ImgY == r * PyStep + PyStep / 2
      && p.IsBorder == OnBorder(GridRows, GridCols, Cell(r, c))
    }

    ghost predicate Shaped()
      reads this`Repr, Grid
    {
      && Dimensioned()
      && (forall r, c :: 0 <= r < GridRows && 0 <= c < GridCols ==> Placed(r, c))
      && (forall p :: p in Repr ==> 0 <= p.Row < GridRows && 0 <= p.Col < GridCols && Grid[p.Row, p.Col] == p)
    }

    /** The pylon of cell (r, c). */
    function PylonAt(r: int, c: int): (p: Pylon)
      reads this`Repr, Grid
      requires Shaped() && 0 <= r < GridRows && 0 <= c < GridCols
      ensures p == Grid[r, c] && p in Repr && CellOf(p) == Cell(r, c)
      ensures p.ImgX == c * PyStep + PyStep / 2 && p.ImgY == r * PyStep + PyStep / 2
      ensures p.IsBorder == OnBorder(GridRows, GridCols, Cell(r, c))
    {
      assert Placed(r, c);
      Grid[r, c]
    }

    /** Model holds the state of every pylon on the grid. */
    ghost predicate Coupled()
      reads this, Grid, Repr
      requires Shaped()
    {
      && Model.Keys == AllCells(GridRows, GridCols)
      && forall r, k {:trigger PylonAt(r, k)} :: 0 <= r < GridRows && 0 <= k < GridCols ==> Model[Cell(r, k)] == PylonAt(r, k).State()
    }

    ghost predicate Valid()
      reads this, Grid, Repr
    {
      Shaped() && Coupled() && Sentinels(Model, GridRows, GridCols)
    }

    /**
     * A detector for images of the given size: pylons every max(pyStep, 3)
     * pixels, as many rows and columns as fit, all placed at construction.
     */
    constructor (imgWidth: int, imgHeight: int, pyStep: int, filter: MedianFilter)
      requires imgWidth >= 0 && imgHeight >= 0 && filter.Valid()
      ensures Valid() && fresh(Grid) && fresh(Repr)
      ensures ImgWidth == imgWidth && ImgHeight == imgHeight && Filter == filter
      ensures PyStep == if pyStep > 3 then pyStep else 3
      ensures GridRows == imgHeight / PyStep && GridCols == imgWidth / PyStep
      ensures forall c :: c in Model ==> Model[c] == Placement(GridRows, GridCols, c)
    {
      ImgWidth := imgWidth;
      ImgHeight := imgHeight;
      var step := if pyStep > 3 then pyStep else 3;
      PyStep := step;
      Filter := filter;
      GridRows := imgHeight / step;
      GridCols := imgWidth / step;
      Grid := new Pylon?[imgHeight / step, imgWidth / step];
      Repr := {};
      new;
      PlacePylons();
      CoupleModel();
    }

    /** Takes the states of the freshly placed pylons into the model. */
    method CoupleModel()
      requires Shaped()
      requires forall r, c :: 0 <= r < GridRows && 0 <= c < GridCols ==> PylonAt(r, c).State() == Placement(GridRows, GridCols, Cell(r, c))
      modifies this`Model
      ensures Valid() && forall c :: c in Model ==> Model[c] == Placement(GridRows, GridCols, c)
    {
      Model := map c | c in AllCells(GridRows, GridCols) :: Placement(GridRows, GridCols, c);
      forall r, k | 0 <= r < GridRows && 0 <= k < GridCols
        ensures Model[Cell(r, k)] == PylonAt(r, k).State()
      {
        assert Cell(r, k) in AllCells(GridRows, GridCols);
      }
    }

    /** Places a pylon on every cell, row by row. */
    method PlacePylons()
      requires Dimensioned() && Repr == {}
      modifies this, Grid
      ensures Shaped() && fresh(Repr)
      ensures forall r, c :: 0 <= r < GridRows && 0 <= c < GridCols ==>
        Placed(r, c) && Grid[r, c].State() == Placement(GridRows, GridCols, Cell(r, c))
    {
      for gridRow := 0 to GridRows
        invariant fresh(Repr)
        invariant forall r, c :: 0 <= r < gridRow && 0 <= c < GridCols ==>
          Placed(r, c) && Grid[r, c].State() == Placement(GridRows, GridCols, Cell(r, c))
        invariant forall p :: p in Repr ==> 0 <= p.Row < gridRow && 0 <= p.Col < GridCols && Grid[p.Row, p.Col] == p
      {
        for gridCol := 0 to GridCols
          invariant fresh(Repr)
          invariant forall r, c :: 0 <= c < GridCols && (0 <= r < gridRow || (r == gridRow && c < gridCol)) ==>
            Placed(r, c) && Grid[r, c].State() == Placement(GridRows, GridCols, Cell(r, c))
          invariant forall p :: p in Repr ==>
            0 <= p.Col < GridCols && (0 <= p.Row < gridRow || (p.Row == gridRow && p.Col < gridCol)) && Grid[p.Row, p.Col] == p
        {
          PlacePylon(gridRow, gridCol);
        }
      }
    }

    /** Creates the pylon of cell (gridRow, gridCol) at its pixel and stores it in the grid. */
    method PlacePylon(gridRow: int, gridCol: int)
      requires Dimensioned() && 0 <= gridRow < GridRows && 0 <= gridCol < GridCols
      modifies this, Grid
      ensures fresh(Grid[gridRow, gridCol]) && Repr == old(Repr) + {Grid[gridRow, gridCol]}
      ensures Placed(gridRow, gridCol)
      ensures Grid[gridRow, gridCol].State() == Placement(GridRows, GridCols, Cell(gridRow, gridCol))
      ensures forall r, c :: 0 <= r < GridRows && 0 <= c < GridCols && (r != gridRow || c != gridCol) ==>
        Grid[r, c] == old(Grid[r, c])
    {
      var halfStep := PyStep / 2;
      var imgX := gridCol * PyStep + halfStep;
      var imgY := gridRow * PyStep + halfStep;
      var isBorder := gridRow == 0 || gridRow == GridRows - 1 || gridCol == 0 || gridCol == GridCols - 1;
      var pylon := new Pylon(imgX, imgY, isBorder, gridRow, gridCol);
      Grid[gridRow, gridCol] := pylon;
      Repr := Repr + {pylon};
    }

    /**
     * The range a pylon over pixel (imgX, imgY) takes from the image: the
     * filter's value when the filter's kernel around the pixel lies inside the
     * image, the raw pixel otherwise, and the raw pixel in every case with the
     * pass-through filter.
     */
    function ProbeAt(imgX: int, imgY: int, buf: seq<byte>, stride: int): (r: byte)
      requires Filter.Valid()
      requires 0 <= imgX < ImgWidth <= stride && 0 <= imgY < ImgHeight && ImgHeight * stride <= |buf|
      ensures 0 <= imgY * stride + imgX < |buf|
      ensures Filter.Null? ==> r == buf[imgY * stride + imgX]
      ensures var radius := Filter.Radius();
        !(imgX - radius >= 0 && imgX + radius < ImgWidth && imgY - radius >= 0 && imgY + radius < ImgHeight) ==> r == buf[imgY * stride + imgX]
      ensures var radius := Filter.Radius();
        imgX - radius >= 0 && imgX + radius < ImgWidth && imgY - radius >= 0 && imgY + radius < ImgHeight ==>
          FastMedianFilter.KernelInBuffer(imgX, imgY, radius, |buf|, stride) && r == Filter.Value(imgX, imgY, buf, stride)
    {
      PixelInBuffer(imgX, imgY, ImgHeight, stride, |buf|);
      var radius := Filter.Radius();
      if imgX - radius >= 0 && imgX + radius < ImgWidth && imgY - radius >= 0 && imgY + radius < ImgHeight then
        KernelInsideImage(imgX, imgY, radius, ImgWidth, ImgHeight, |buf|, stride);
        Filter.Value(imgX, imgY, buf, stride)
      else
        buf[imgY * stride + imgX]
    }

    /** Reads the pylon's range from the image and resets the pylon to it. */
    method ResetPylon(pylon: Pylon, scan0: array<byte>, stride: int)
      requires Filter.Valid()
      requires 0 <= pylon.ImgX < ImgWidth <= stride && 0 <= pylon.ImgY < ImgHeight && ImgHeight * stride <= scan0.Length
      modifies pylon, Filter.Repr()
      ensures pylon.State() == PylonState(ProbeAt(pylon.ImgX, pylon.ImgY, scan0[..], stride), pylon.IsBorder, !pylon.IsBorder, false)
    {
      PixelInBuffer(pylon.ImgX, pylon.ImgY, ImgHeight, stride, scan0.Length);
      var range := scan0[pylon.ImgY * stride + pylon.ImgX];
      if pylon.IsInsideImage(Filter.Radius(), ImgWidth, ImgHeight) {
        pylon.InsideImageKernelInBuffer(Filter.Radius(), ImgWidth, ImgHeight, scan0.Length, stride);
        range := Filter.Calculate(pylon.ImgX, pylon.ImgY, scan0, stride);
      }
      pylon.ResetAt(range);
    }

    /** Resets the interior pylons of one grid row, west to east. */
    method ResetRow(gridRow: int, scan0: array<byte>, stride: int)
      requires Shaped() && Coupled() && 1 <= gridRow < GridRows - 1
      requires ImgWidth <= stride && ImgHeight * stride <= scan0.Length
      modifies this`Model, Repr, Filter.Repr()
      ensures Coupled() && Model.Keys == old(Model).Keys && scan0[..] == old(scan0[..])
      ensures forall c :: c in Model ==>
          Model[c] == (if c.Row == gridRow && 1 <= c.Col < GridCols - 1 then FrameStart(c, scan0[..], stride) else old(Model)[c])
    {
      ghost var S0 := Model;
      ghost var buf := scan0[..];
      var gridCol := 1;
      while gridCol < GridCols - 1
        invariant 1 <= gridCol && (gridCol <= GridCols - 1 || gridCol == 1) && scan0[..] == buf
        invariant Coupled() && Model.Keys == S0.Keys
        invariant forall c :: c in Model ==>
            Model[c] == (if c.Row == gridRow && 1 <= c.Col < gridCol then FrameStart(c, buf, stride) else S0[c])
      {
        ResetCell(gridRow, gridCol, scan0, stride);
        gridCol := gridCol + 1;
      }
    }

    /** Resets the pylon of the interior cell (gridRow, gridCol) from the image. */
    method ResetCell(gridRow: int, gridCol: int, scan0: array<byte>, stride: int)
      requires Shaped() && Coupled() && 0 <= gridRow < GridRows && 0 <= gridCol < GridCols
      requires ImgWidth <= stride && ImgHeight * stride <= scan0.Length
      requires !OnBorder(GridRows, GridCols, Cell(gridRow, gridCol))
      modifies this`Model, Repr, Filter.Repr()
      ensures Coupled() && scan0[..] == old(scan0[..])
      ensures Model == old(Model)[Cell(gridRow, gridCol) := FrameStart(Cell(gridRow, gridCol), scan0[..], stride)]
    {
      var pylon := Grid[gridRow, gridCol];
      ghost var cell := Cell(gridRow, gridCol);
      assert pylon == PylonAt(gridRow, gridCol);
      PixelPositionInImage(cell);
      ghost var want := FrameStart(cell, scan0[..], stride);
      assert want == PylonState(ProbeAt(pylon.ImgX, pylon.ImgY, scan0[..], stride), pylon.IsBorder, !pylon.IsBorder, false);
      ResetPylon(pylon, scan0, stride);
      assert Shaped();
      Model := Model[cell := want];
      forall r, k | 0 <= r < GridRows && 0 <= k < GridCols
        ensures Model[Cell(r, k)] == PylonAt(r, k).State()
      {
        if Cell(r, k) != cell {
          assert PylonAt(r, k) != pylon;
        }
      }
    }

    /** Turns the head pylon of cell c into a tail. */
    method DropHead(pylon: Pylon, ghost c: Cell)
      requires Shaped() && Coupled() && InGrid(GridRows, GridCols, c) && pylon == PylonAt(c.Row, c.Col)
      modifies pylon, this`Model
      ensures Coupled() && Model == MarkTail(old(Model), c)
    {
      pylon.IsHead := false;
      assert Shaped();
      Model := MarkTail(Model, c);
      forall r, k | 0 <= r < GridRows && 0 <= k < GridCols
        ensures Model[Cell(r, k)] == PylonAt(r, k).State()
      {
        if Cell(r, k) != c {
          assert PylonAt(r, k) != pylon;
        }
      }
    }

    /**
     * Turns the pylon at (gridRow, gridCol), if it is a head that is discarded
     * by a neighbour or was reached from a neighbouring tail, into a tail, and
     * then continues into every neighbour that did not discard it, east, north,
     * west and south. Only heads fall, every tail stays justified by a
     * neighbour, no head becomes newly unstable, and the pylon itself is no
     * longer an unstable head.
     */
    method DiscardTailPylon(gridRow: int, gridCol: int, previous: Pylon?)
      requires Valid() && 0 <= gridRow < GridRows && 0 <= gridCol < GridCols
      requires TailsJustified(Model) && TailsGrounded(Model)
      requires previous != null ==> previous in Repr && PreviousTail(Model, CellOf(previous), Cell(gridRow, gridCol))
      modifies this`Model, Repr
      ensures Valid() && Repr == old(Repr)
      ensures HeadsOnlyFall(old(Model), Model) && TailsJustified(Model) && TailsGrounded(Model)
      ensures UnstableCells(Model) <= old(UnstableCells(Model))
      ensures !Unstable(Model, Cell(gridRow, gridCol))
      decreases HeadCells(Model), 3
    {
      var current := Grid[gridRow, gridCol];
      assert current == PylonAt(gridRow, gridCol);
      if !current.IsHead {
        return;
      }
      ghost var c := Cell(gridRow, gridCol);
      ghost var S0 := Model;
      HeadNeighboursInGrid(S0, GridRows, GridCols, c);

      var adjacentE := Grid[gridRow, gridCol + 1];
      var adjacentW := Grid[gridRow, gridCol - 1];
      var adjacentN := Grid[gridRow - 1, gridCol];
      var adjacentS := Grid[gridRow + 1, gridCol];
      assert adjacentE == PylonAt(gridRow, gridCol + 1) && adjacentW == PylonAt(gridRow, gridCol - 1);
      assert adjacentN == PylonAt(gridRow - 1, gridCol) && adjacentS == PylonAt(gridRow + 1, gridCol);

      var visitedE := previous == adjacentE || current.IsDiscardedBy(adjacentE);
      var visitedW := previous == adjacentW || current.IsDiscardedBy(adjacentW);
      var visitedN := previous == adjacentN || current.IsDiscardedBy(adjacentN);
      var visitedS := previous == adjacentS || current.IsDiscardedBy(adjacentS);
      ghost var hasPrev := previous != null;
      ghost var p := if previous != null then CellOf(previous) else c;
      assert VisitedFlags(S0, c, hasPrev, p, visitedE, visitedN, visitedW, visitedS) by {
        if previous != null {
          assert Grid[p.Row, p.Col] == previous;
        }
      }

      if visitedE || visitedN || visitedW || visitedS {
        DropHead(current, c);
        DiscardAround(current, gridRow, gridCol, visitedE, visitedN, visitedW, visitedS, c, S0, hasPrev, p);
      }
    }

    /**
     * What follows marking the head c a tail: the fill continues into each
     * neighbour whose flag is down, east, north, west, then south.
     */
    method DiscardAround(current: Pylon, gridRow: int, gridCol: int, visitedE: bool, visitedN: bool, visitedW: bool, visitedS: bool,
                         ghost c: Cell, ghost S0: GridState, ghost hasPrev: bool, ghost p: Cell)
      requires Shaped() && Coupled() && current in Repr && CellOf(current) == c && c == Cell(gridRow, gridCol)
      requires Sentinels(S0, GridRows, GridCols) && TailsJustified(S0) && TailsGrounded(S0) && c in S0 && S0[c].IsHead
      requires East(c) in S0 && North(c) in S0 && West(c) in S0 && South(c) in S0
      requires hasPrev ==> PreviousTail(S0, p, c)
      requires VisitedFlags(S0, c, hasPrev, p, visitedE, visitedN, visitedW, visitedS) && (visitedE || visitedN || visitedW || visitedS)
      requires Model == MarkTail(S0, c)
      modifies this`Model, Repr
      ensures Valid() && Repr == old(Repr)
      ensures HeadsOnlyFall(S0, Model) && TailsJustified(Model) && TailsGrounded(Model)
      ensures UnstableCells(Model) <= UnstableCells(S0)
      ensures !Unstable(Model, c)
      decreases HeadCells(S0), 2
    {
      ghost var S1 := Model;
      VisitedJustifies(S0, c, hasPrev, p, visitedE, visitedN, visitedW, visitedS);
      MarkTailKeepsJustified(S0, c);
      MarkTailKeepsGrounded(S0, c);
      HeadsOnlyFallKeepsSentinels(S0, S1, GridRows, GridCols);
      MarkTailPending(S0, GridRows, GridCols, c, hasPrev, p, visitedE, visitedN, visitedW, visitedS);
      ghost var U0 := UnstableCells(S0);
      ghost var P0 := Unvisited(c, visitedE, visitedN, visitedW, visitedS);
      ghost var P1 := Unvisited(c, true, visitedN, visitedW, visitedS);
      ghost var P2 := Unvisited(c, true, true, visitedW, visitedS);
      ghost var P3 := Unvisited(c, true, true, true, visitedS);
      UnvisitedSteps(c, visitedE, visitedN, visitedW, visitedS);
      HeadsOnlyFallReflexive(S1);
      ContinueDiscard(current, visitedE, gridRow, gridCol + 1, c, East(c), S0, S1, U0, P0, P1);
      ContinueDiscard(current, visitedN, gridRow - 1, gridCol, c, North(c), S0, S1, U0, P1, P2);
      ContinueDiscard(current, visitedW, gridRow, gridCol - 1, c, West(c), S0, S1, U0, P2, P3);
      ContinueDiscard(current, visitedS, gridRow + 1, gridCol, c, South(c), S0, S1, U0, P3, {});
      HeadsOnlyFallTransitive(S0, S1, Model);
    }

    /**
     * One of the four steps that follow marking the head c a tail: unless the
     * neighbour (nextRow, nextCol) is flagged visited, the fill continues into it.
     * Heads only fall since c was marked, and that neighbour leaves the set of
     * cells that may still be newly unstable.
     */
    method ContinueDiscard(current: Pylon, visited: bool, nextRow: int, nextCol: int, ghost c: Cell, ghost d: Cell,
                           ghost S0: GridState, ghost S1: GridState, ghost U0: set<Cell>, ghost pending: set<Cell>, ghost rest: set<Cell>)
      requires Valid() && TailsJustified(Model) && TailsGrounded(Model)
      requires current in Repr && CellOf(current) == c && d == Cell(nextRow, nextCol)
      requires c in S0 && S0[c].IsHead && !S0[c].IsBorder
      requires d in S0 && Adjacent(d, c) && S0.Keys == Model.Keys
      requires !visited ==> !S0[c].IsDiscardedBy(S0[d]) && (S0[d].IsBorder ==> !S0[d].IsHead)
      requires S1 == MarkTail(S0, c) && HeadsOnlyFall(S1, Model)
      requires UnstableCells(Model) <= U0 + pending && rest == pending - {d} && (visited ==> d !in pending)
      modifies this`Model, Repr
      ensures Valid() && Repr == old(Repr) && TailsJustified(Model) && TailsGrounded(Model)
      ensures HeadsOnlyFall(S1, Model) && UnstableCells(Model) <= U0 + rest
      decreases HeadCells(S0), 1
    {
      if !visited {
        ghost var Sk := Model;
        NextPrevious(S0, Sk, c, d);
        MarkedTailShrinksHeads(S0, Sk, c);
        DiscardTailPylon(nextRow, nextCol, current);
        FillStep(S1, Sk, Model, U0, pending, d);
      } else {
        assert rest == pending;
      }
    }

    /**
     * Runs the discard fill from every interior pylon, row by row. Afterwards
     * no head is discarded by a neighbour, every non-border pylon is a head
     * exactly when none of its neighbours discards it, and exactly when no
     * pylon of its plateau has a strictly nearer non-border neighbour.
     */
    method DiscardTailPylons()
      requires Valid() && TailsJustified(Model) && TailsGrounded(Model)
      modifies this`Model, Repr
      ensures Valid() && Repr == old(Repr)
      ensures HeadsOnlyFall(old(Model), Model) && TailsJustified(Model) && TailsGrounded(Model)
      ensures UnstableCells(Model) == {}
      ensures forall c :: c in Model && !Model[c].IsBorder ==> (Model[c].IsHead <==> !DiscardedByANeighbour(Model, c))
      ensures forall c :: c in Model && !Model[c].IsBorder ==> (Model[c].IsHead <==> !PlateauDrains(Model, c))
    {
      HeadsOnlyFallReflexive(Model);
      var gridRow := 1;
      while gridRow < GridRows - 1
        invariant 1 <= gridRow
        invariant Valid() && Repr == old(Repr) && TailsJustified(Model) && TailsGrounded(Model)
        invariant HeadsOnlyFall(old(Model), Model)
        invariant forall x :: x in UnstableCells(Model) ==> x.Row >= gridRow
      {
        ghost var Sb := Model;
        DiscardRow(gridRow);
        HeadsOnlyFallTransitive(old(Model), Sb, Model);
        gridRow := gridRow + 1;
      }
      HeadsInside(Model, GridRows, GridCols);
      forall c | c in Model && !Model[c].IsBorder
        ensures Model[c].IsHead <==> !DiscardedByANeighbour(Model, c)
        ensures Model[c].IsHead <==> !PlateauDrains(Model, c)
      {
        HeadIffNotDiscarded(Model, c);
        HeadIffPlateauUndrained(Model, c);
      }
    }

    /** Runs the discard fill from every interior pylon of one row, west to east. */
    method DiscardRow(gridRow: int)
      requires Valid() && TailsJustified(Model) && TailsGrounded(Model) && 1 <= gridRow < GridRows - 1
      requires forall x :: x in UnstableCells(Model) ==> x.Row >= gridRow
      modifies this`Model, Repr
      ensures Valid() && Repr == old(Repr) && TailsJustified(Model) && TailsGrounded(Model)
      ensures HeadsOnlyFall(old(Model), Model)
      ensures forall x :: x in UnstableCells(Model) ==> x.Row > gridRow
    {
      HeadsOnlyFallReflexive(Model);
      var gridCol := 1;
      while gridCol < GridCols - 1
        invariant 1 <= gridCol
        invariant Valid() && Repr == old(Repr) && TailsJustified(Model) && TailsGrounded(Model)
        invariant HeadsOnlyFall(old(Model), Model)
        invariant forall x :: x in UnstableCells(Model) ==> x.Row > gridRow || (x.Row == gridRow && x.Col >= gridCol)
      {
        ghost var Sb := Model;
        DiscardTailPylon(gridRow, gridCol, null);
        HeadsOnlyFallTransitive(old(Model), Sb, Model);
        gridCol := gridCol + 1;
      }
      HeadsInside(Model, GridRows, GridCols);
    }

    /**
     * A group under construction: its members are grouped pylons of the grid,
     * each cell at most once, and its range is the range of its last member.
     */
    ghost predicate GroupInv(group: PylonGroup)
      reads this, group
    {
      && group.Valid()
      && (forall i :: 0 <= i < |group.Members| ==>
            group.Members[i] in Repr && CellOf(group.Members[i]) in Model && Model[CellOf(group.Members[i])].IsGrouped)
      && NoDuplicates(CellsOf(group.Members))
      && (|group.Members| > 0 ==> group.GroupRange == Model[CellOf(group.Members[|group.Members| - 1])].Range)
    }

    /** Registers the ungrouped head of cell c with the group. */
    method RegisterAt(group: PylonGroup, pylon: Pylon, ghost c: Cell)
      requires Valid() && GroupInv(group) && GroupedAreHeads(Model)
      requires InGrid(GridRows, GridCols, c) && pylon == PylonAt(c.Row, c.Col) && UngroupedHead(Model, c)
      modifies group, pylon, this`Model
      ensures Valid() && GroupInv(group) && GroupedAreHeads(Model)
      ensures Model == MarkGrouped(old(Model), c) && Frontier(Model) <= old(Frontier(Model)) + {c}
      ensures group.Members == old(group.Members) + [pylon] && MemberCells(group.Members) == old(MemberCells(group.Members)) + {c}
    {
      ghost var S0 := Model;
      ghost var M0 := group.Members;
      group.Register(pylon);
      assert Shaped();
      Model := MarkGrouped(Model, c);
      forall r, k | 0 <= r < GridRows && 0 <= k < GridCols
        ensures Model[Cell(r, k)] == PylonAt(r, k).State()
      {
        if Cell(r, k) != c {
          assert PylonAt(r, k) != pylon;
        }
      }
      MarkGroupedFrontier(S0, c);
      GroupsOnlyRiseKeeps(S0, Model, GridRows, GridCols);
      assert c !in MemberCells(M0);
      AppendMember(M0, pylon, c);
    }

    /**
     * Adds to the group the pylon at (gridRow, gridCol), if it is an ungrouped
     * head, and everything reachable from it through ungrouped heads, going
     * north, south, west, then east. The grouped cells only grow, each newly
     * grouped cell is linked to the start through heads and joins the group's
     * members, no frontier cell is left behind, and the start is no longer an
     * ungrouped head.
     */
    method GroupHeadPylon(gridRow: int, gridCol: int, group: PylonGroup)
      requires Valid() && GroupedAreHeads(Model) && GroupInv(group)
      requires 0 <= gridRow < GridRows && 0 <= gridCol < GridCols
      modifies this`Model, Repr, group
      ensures Valid() && Repr == old(Repr) && GroupInv(group)
      ensures GroupsOnlyRise(old(Model), Model) && GroupedAreHeads(Model)
      ensures Frontier(Model) <= old(Frontier(Model))
      ensures !UngroupedHead(Model, Cell(gridRow, gridCol))
      ensures old(group.Members) <= group.Members
      ensures MemberCells(group.Members) == old(MemberCells(group.Members)) + (GroupedCells(Model) - GroupedCells(old(Model)))
      ensures AllLinked(HeadCells(old(Model)), Cell(gridRow, gridCol), GroupedCells(Model) - GroupedCells(old(Model)))
      ensures !UngroupedHead(old(Model), Cell(gridRow, gridCol)) ==> Model == old(Model) && group.Members == old(group.Members)
      decreases UngroupedHeads(Model), 3
    {
      var pylon := Grid[gridRow, gridCol];
      assert pylon == PylonAt(gridRow, gridCol);
      if !pylon.IsHead || pylon.IsGrouped {
        assert GroupsOnlyRise(Model, Model);
        assert GroupedCells(Model) - GroupedCells(Model) == {};
        return;
      }
      ghost var c := Cell(gridRow, gridCol);
      ghost var S0 := Model;
      ghost var A0 := MemberCells(group.Members);
      ghost var M0 := group.Members;
      RegisterAt(group, pylon, c);
      GroupAround(gridRow, gridCol, group, c, S0, A0, M0);
    }

    /** What follows registering the head c: the fill goes north, south, west, then east. */
    method GroupAround(gridRow: int, gridCol: int, group: PylonGroup, ghost c: Cell, ghost S0: GridState, ghost A0: set<Cell>, ghost M0: seq<Pylon>)
      requires Valid() && GroupedAreHeads(Model) && GroupInv(group)
      requires c == Cell(gridRow, gridCol) && UngroupedHead(S0, c) && Sentinels(S0, GridRows, GridCols)
      requires Model == MarkGrouped(S0, c) && Frontier(Model) <= Frontier(S0) + {c}
      requires M0 <= group.Members && MemberCells(group.Members) == A0 + {c}
      modifies this`Model, Repr, group
      ensures Valid() && Repr == old(Repr) && GroupInv(group)
      ensures GroupsOnlyRise(S0, Model) && GroupedAreHeads(Model)
      ensures Frontier(Model) <= Frontier(S0) && !UngroupedHead(Model, c)
      ensures M0 <= group.Members && MemberCells(group.Members) == A0 + (GroupedCells(Model) - GroupedCells(S0))
      ensures AllLinked(HeadCells(S0), c, GroupedCells(Model) - GroupedCells(S0))
      decreases UngroupedHeads(S0), 2
    {
      HeadNeighboursInGrid(S0, GridRows, GridCols, c);
      MarkGroupedFrontier(S0, c);
      LinkedToItself(HeadCells(S0), c);
      assert GroupedCells(Model) - GroupedCells(S0) == {c};
      ghost var D0: set<Cell> := {};
      ghost var D1 := D0 + {North(c)};
      ghost var D2 := D1 + {South(c)};
      ghost var D3 := D2 + {West(c)};
      ContinueGroup(gridRow - 1, gridCol, group, c, North(c), S0, A0, M0, D0);
      ContinueGroup(gridRow + 1, gridCol, group, c, South(c), S0, A0, M0, D1);
      ContinueGroup(gridRow, gridCol - 1, group, c, West(c), S0, A0, M0, D2);
      ContinueGroup(gridRow, gridCol + 1, group, c, East(c), S0, A0, M0, D3);
      assert North(c) in D3 + {East(c)} && South(c) in D3 + {East(c)} && West(c) in D3 + {East(c)};
      FrontierSettles(S0, Model, c);
    }

    /** One of the four steps that follow registering the head c: the fill continues into its neighbour d. */
    method ContinueGroup(gridRow: int, gridCol: int, group: PylonGroup, ghost c: Cell, ghost d: Cell,
                         ghost S0: GridState, ghost A0: set<Cell>, ghost M0: seq<Pylon>, ghost done: set<Cell>)
      requires Valid() && GroupedAreHeads(Model) && GroupInv(group)
      requires d == Cell(gridRow, gridCol) && d in S0 && Adjacent(c, d) && UngroupedHead(S0, c) && S0.Keys == Model.Keys
      requires GroupsOnlyRise(S0, Model) && !UngroupedHead(Model, c) && Frontier(Model) <= Frontier(S0) + {c}
      requires M0 <= group.Members && MemberCells(group.Members) == A0 + (GroupedCells(Model) - GroupedCells(S0))
      requires AllLinked(HeadCells(S0), c, GroupedCells(Model) - GroupedCells(S0))
      requires forall y :: y in done ==> !UngroupedHead(Model, y)
      modifies this`Model, Repr, group
      ensures Valid() && Repr == old(Repr) && GroupInv(group)
      ensures GroupsOnlyRise(S0, Model) && GroupedAreHeads(Model) && !UngroupedHead(Model, c) && Frontier(Model) <= Frontier(S0) + {c}
      ensures M0 <= group.Members && MemberCells(group.Members) == A0 + (GroupedCells(Model) - GroupedCells(S0))
      ensures AllLinked(HeadCells(S0), c, GroupedCells(Model) - GroupedCells(S0))
      ensures forall y :: y in done + {d} ==> !UngroupedHead(Model, y)
      decreases UngroupedHeads(S0), 1
    {
      ghost var Sb := Model;
      ghost var Ab := MemberCells(group.Members);
      GroupedShrinksUngrouped(S0, Model, c);
      GroupHeadPylon(gridRow, gridCol, group);
      GroupStep(S0, Sb, Model, c, d);
      GrowingUnion(A0, Ab, MemberCells(group.Members), GroupedCells(S0), GroupedCells(Sb), GroupedCells(Model));
    }

    /**
     * The heads the grouping pass has found since it started in state S0, one
     * per component of heads that were ungrouped in S0: head i has range and
     * centre as GroupHead says of the group members[i], whose cells are
     * comps[i], the 4-connected component of heads holding starts[i], and
     * starts[i] is that component's first cell in row-major order. The
     * components are pairwise disjoint, their starts come in row-major order,
     * and each centre lies on the image.
     */
    ghost predicate HeadsOf(S0: GridState, heads: seq<Head>, starts: seq<Cell>, comps: seq<set<Cell>>, members: seq<seq<Pylon>>)
    {
      && |heads| == |starts| == |comps| == |members|
      && PairwiseDisjoint(comps)
      && (forall i :: 0 <= i < |comps| ==> starts[i] in HeadCells(S0) && comps[i] == Component(HeadCells(S0), starts[i]))
      && (forall i, x :: 0 <= i < |comps| && x in comps[i] ==> x == starts[i] || Before(starts[i], x))
      && (forall i, j :: 0 <= i < j < |starts| ==> Before(starts[i], starts[j]))
      && (forall i :: 0 <= i < |heads| ==> GroupHead(S0, heads[i], members[i], comps[i], PyStep))
      && (forall i :: 0 <= i < |heads| ==> 0 <= heads[i].CenterX < ImgWidth && 0 <= heads[i].CenterY < ImgHeight)
    }

    /** A head found from a start after all earlier ones, with a component disjoint from theirs, extends what was found. */
    lemma HeadsOfAppend(S0: GridState, heads: seq<Head>, starts: seq<Cell>, comps: seq<set<Cell>>, members: seq<seq<Pylon>>,
                        h: Head, c: Cell, D: set<Cell>, ms: seq<Pylon>)
      requires HeadsOf(S0, heads, starts, comps, members) && D !! UnionOf(comps)
      requires forall i :: 0 <= i < |starts| ==> Before(starts[i], c)
      requires c in HeadCells(S0) && D == Component(HeadCells(S0), c)
      requires forall x :: x in D ==> x == c || Before(c, x)
      requires GroupHead(S0, h, ms, D, PyStep) && 0 <= h.CenterX < ImgWidth && 0 <= h.CenterY < ImgHeight
      ensures HeadsOf(S0, heads + [h], starts + [c], comps + [D], members + [ms])
      ensures UnionOf(comps + [D]) == UnionOf(comps) + D
    {
      AppendDisjoint(comps, D);
    }

    /** Recording the group formed from c, the next cell of the scan, extends what the scan has found. */
    lemma RecordGroup(S0: GridState, Sb: GridState, S: GridState, c: Cell,
                      heads: seq<Head>, starts: seq<Cell>, comps: seq<set<Cell>>, members: seq<seq<Pylon>>, h: Head, ms: seq<Pylon>)
      requires GroupsOnlyRise(S0, Sb) && GroupsOnlyRise(Sb, S) && GroupedAreHeads(S)
      requires HeadsOf(S0, heads, starts, comps, members) && UnionOf(comps) == GroupedCells(Sb) - GroupedCells(S0)
      requires forall i :: 0 <= i < |starts| ==> Before(starts[i], c)
      requires forall x :: UngroupedHead(Sb, x) ==> !Before(x, c)
      requires UngroupedHead(Sb, c) && !UngroupedHead(S, c)
      requires GroupedCells(S) - GroupedCells(Sb) == Component(HeadCells(Sb), c)
      requires GroupHead(Sb, h, ms, GroupedCells(S) - GroupedCells(Sb), PyStep) && 0 <= h.CenterX < ImgWidth && 0 <= h.CenterY < ImgHeight
      ensures HeadsOf(S0, heads + [h], starts + [c], comps + [GroupedCells(S) - GroupedCells(Sb)], members + [ms])
      ensures UnionOf(comps + [GroupedCells(S) - GroupedCells(Sb)]) == GroupedCells(S) - GroupedCells(S0)
    {
      var D := GroupedCells(S) - GroupedCells(Sb);
      ScanStep(Sb, S, c);
      GroupsOnlyRiseKeeps(S0, Sb, 0, 0);
      GroupsOnlyRiseKeeps(Sb, S, 0, 0);
      GroupHeadAcrossGrouping(S0, Sb, h, ms, D, PyStep);
      HeadsOfAppend(S0, heads, starts, comps, members, h, c, D, ms);
      Telescope(GroupedCells(S0), GroupedCells(Sb), GroupedCells(S));
    }

    /** Grouping keeps the heads and their ranges, so it keeps what was found. */
    lemma HeadsOfAcrossGrouping(S0: GridState, S1: GridState, heads: seq<Head>, starts: seq<Cell>, comps: seq<set<Cell>>, members: seq<seq<Pylon>>)
      requires GroupsOnlyRise(S0, S1) && HeadsOf(S0, heads, starts, comps, members)
      ensures HeadsOf(S1, heads, starts, comps, members)
    {
      GroupsOnlyRiseKeeps(S0, S1, 0, 0);
      forall i | 0 <= i < |heads|
        ensures GroupHead(S1, heads[i], members[i], comps[i], PyStep)
      {
        GroupHeadAcrossGrouping(S0, S1, heads[i], members[i], comps[i], PyStep);
      }
    }

    /**
     * Once no head is discarded by a neighbour, every head found is on the
     * range of each pylon of its component.
     */
    lemma HeadRangesUniform(S: GridState, heads: seq<Head>, starts: seq<Cell>, comps: seq<set<Cell>>, members: seq<seq<Pylon>>)
      requires HeadsOf(S, heads, starts, comps, members)
      requires Sentinels(S, GridRows, GridCols) && UnstableCells(S) == {}
      ensures forall i, x :: 0 <= i < |comps| && x in comps[i] ==> x in S && heads[i].Range == S[x].Range
    {
      forall i, x | 0 <= i < |comps| && x in comps[i]
        ensures x in S && heads[i].Range == S[x].Range
      {
        var ms := members[i];
        assert GroupHead(S, heads[i], ms, comps[i], PyStep);
        var last := CellOf(ms[|ms| - 1]);
        assert last in MemberCells(ms);
        UniformComponentRange(S, GridRows, GridCols, starts[i], last);
        UniformComponentRange(S, GridRows, GridCols, starts[i], x);
      }
    }

    /**
     * One step of the grouping pass: groups from cell (gridRow, gridCol) into
     * a fresh group. A group forms exactly when the cell held an ungrouped
     * head; then the cells grouped are exactly its 4-connected component of
     * heads and the group's head lies on the image.
     */
    method GroupCell(gridRow: int, gridCol: int) returns (found: bool, head: Head, ghost ms: seq<Pylon>)
      requires Valid() && GroupedAreHeads(Model) && Frontier(Model) == {}
      requires 0 <= gridRow < GridRows && 0 <= gridCol < GridCols
      modifies this`Model, Repr
      ensures Valid() && Repr == old(Repr) && GroupedAreHeads(Model) && Frontier(Model) == {}
      ensures GroupsOnlyRise(old(Model), Model) && !UngroupedHead(Model, Cell(gridRow, gridCol))
      ensures found == UngroupedHead(old(Model), Cell(gridRow, gridCol))
      ensures found ==> GroupedCells(Model) - GroupedCells(old(Model)) == Component(HeadCells(old(Model)), Cell(gridRow, gridCol))
      ensures found ==> GroupHead(old(Model), head, ms, GroupedCells(Model) - GroupedCells(old(Model)), PyStep)
      ensures found ==> 0 <= head.CenterX < ImgWidth && 0 <= head.CenterY < ImgHeight
      ensures !found ==> Model == old(Model)
    {
      var group := new PylonGroup();
      ghost var S0 := Model;
      ghost var c := Cell(gridRow, gridCol);
      GroupHeadPylon(gridRow, gridCol, group);
      ms := group.Members;
      GroupsOnlyRiseKeeps(S0, Model, GridRows, GridCols);
      if UngroupedHead(S0, c) {
        assert c in MemberCells(ms);
      }
      found := group.PylonCount > 0;
      head := Head(0, 0, 0);
      if found {
        FillGroupsComponent(S0, Model, c);
        head := group.ToHead();
        MembersPlaced(ms);
        CentreWithinMembers(group, 0, ImgWidth - 1, 0, ImgHeight - 1);
      }
    }

    /** Pylons of the grid sit on the image, each over the centre pixel of its cell. */
    lemma MembersPlaced(ms: seq<Pylon>)
      requires Shaped() && forall i :: 0 <= i < |ms| ==> ms[i] in Repr
      ensures forall i :: 0 <= i < |ms| ==> 0 <= ms[i].ImgX <= ImgWidth - 1 && 0 <= ms[i].ImgY <= ImgHeight - 1
      ensures forall i :: 0 <= i < |ms| ==> ms[i].ImgX == ms[i].Col * PyStep + PyStep / 2 && ms[i].ImgY == ms[i].Row * PyStep + PyStep / 2
    {
      forall i | 0 <= i < |ms|
        ensures 0 <= ms[i].ImgX <= ImgWidth - 1 && 0 <= ms[i].ImgY <= ImgHeight - 1
        ensures ms[i].ImgX == ms[i].Col * PyStep + PyStep / 2 && ms[i].ImgY == ms[i].Row * PyStep + PyStep / 2
      {
        PixelPositionInImage(CellOf(ms[i]));
        assert PylonAt(ms[i].Row, ms[i].Col) == ms[i];
      }
    }

    /**
     * One step of the row-major scan: groups from cell c when it holds an
     * ungrouped head and records the component found, keeping the scan's
     * bookkeeping over the heads recorded so far.
     */
    method ScanCell(gridRow: int, gridCol: int, ghost S0: GridState, heads0: seq<Head>, ghost starts0: seq<Cell>, ghost comps0: seq<set<Cell>>, ghost members0: seq<seq<Pylon>>)
      returns (heads: seq<Head>, ghost starts: seq<Cell>, ghost comps: seq<set<Cell>>, ghost members: seq<seq<Pylon>>)
      requires Valid() && 1 <= gridRow < GridRows - 1 && 1 <= gridCol < GridCols - 1
      requires GroupsOnlyRise(S0, Model) && GroupedAreHeads(Model) && Frontier(Model) == {}
      requires HeadsOf(S0, heads0, starts0, comps0, members0) && UnionOf(comps0) == GroupedCells(Model) - GroupedCells(S0)
      requires forall i :: 0 <= i < |starts0| ==> Before(starts0[i], Cell(gridRow, gridCol))
      requires forall x :: UngroupedHead(Model, x) ==> !Before(x, Cell(gridRow, gridCol))
      modifies this`Model, Repr
      ensures Valid() && Repr == old(Repr)
      ensures GroupsOnlyRise(S0, Model) && GroupedAreHeads(Model) && Frontier(Model) == {}
      ensures HeadsOf(S0, heads, starts, comps, members) && UnionOf(comps) == GroupedCells(Model) - GroupedCells(S0)
      ensures forall i :: 0 <= i < |starts| ==> Before(starts[i], Cell(gridRow, gridCol + 1))
      ensures forall x :: UngroupedHead(Model, x) ==> !Before(x, Cell(gridRow, gridCol + 1))
    {
      heads, starts, comps, members := heads0, starts0, comps0, members0;
      ghost var Sb := Model;
      ghost var c := Cell(gridRow, gridCol);
      var found, head, ms := GroupCell(gridRow, gridCol);
      GroupsOnlyRiseTransitive(S0, Sb, Model);
      ScanStep(Sb, Model, c);
      if found {
        ghost var D := GroupedCells(Model) - GroupedCells(Sb);
        RecordGroup(S0, Sb, Model, c, heads, starts, comps, members, head, ms);
        heads, starts, comps, members := heads + [head], starts + [c], comps + [D], members + [ms];
      }
    }

    /** Scans the interior cells of one grid row, west to east. */
    method GroupRow(gridRow: int, ghost S0: GridState, heads0: seq<Head>, ghost starts0: seq<Cell>, ghost comps0: seq<set<Cell>>, ghost members0: seq<seq<Pylon>>)
      returns (heads: seq<Head>, ghost starts: seq<Cell>, ghost comps: seq<set<Cell>>, ghost members: seq<seq<Pylon>>)
      requires Valid() && 1 <= gridRow < GridRows - 1
      requires GroupsOnlyRise(S0, Model) && GroupedAreHeads(Model) && Frontier(Model) == {}
      requires HeadsOf(S0, heads0, starts0, comps0, members0) && UnionOf(comps0) == GroupedCells(Model) - GroupedCells(S0)
      requires forall i :: 0 <= i < |starts0| ==> Before(starts0[i], Cell(gridRow, 1))
      requires forall x :: UngroupedHead(Model, x) ==> !Before(x, Cell(gridRow, 1))
      modifies this`Model, Repr
      ensures Valid() && Repr == old(Repr)
      ensures GroupsOnlyRise(S0, Model) && GroupedAreHeads(Model) && Frontier(Model) == {}
      ensures HeadsOf(S0, heads, starts, comps, members) && UnionOf(comps) == GroupedCells(Model) - GroupedCells(S0)
      ensures forall i :: 0 <= i < |starts| ==> Before(starts[i], Cell(gridRow + 1, 1))
      ensures forall x :: UngroupedHead(Model, x) ==> !Before(x, Cell(gridRow + 1, 1))
    {
      heads, starts, comps, members := heads0, starts0, comps0, members0;
      var gridCol := 1;
      while gridCol < GridCols - 1
        invariant 1 <= gridCol
        invariant Valid() && Repr == old(Repr)
        invariant GroupsOnlyRise(S0, Model) && GroupedAreHeads(Model) && Frontier(Model) == {}
        invariant HeadsOf(S0, heads, starts, comps, members) && UnionOf(comps) == GroupedCells(Model) - GroupedCells(S0)
        invariant forall i :: 0 <= i < |starts| ==> Before(starts[i], Cell(gridRow, gridCol))
        invariant forall x :: UngroupedHead(Model, x) ==> !Before(x, Cell(gridRow, gridCol))
      {
        heads, starts, comps, members := ScanCell(gridRow, gridCol, S0, heads, starts, comps, members);
        gridCol := gridCol + 1;
      }
      ScanRowEnd(Model, GridRows, GridCols, gridRow, gridCol);
    }

    /**
     * Groups the heads into 4-connected components, scanning the interior
     * cells row by row, and returns one head per component. Started with no
     * grouped cell on the frontier, every head ungrouped at the start ends up
     * in exactly one of the components.
     */
    method GroupHeadPylons() returns (heads: seq<Head>, ghost starts: seq<Cell>, ghost comps: seq<set<Cell>>, ghost members: seq<seq<Pylon>>)
      requires Valid() && GroupedAreHeads(Model) && Frontier(Model) == {}
      modifies this`Model, Repr
      ensures Valid() && Repr == old(Repr)
      ensures GroupsOnlyRise(old(Model), Model) && UngroupedHeads(Model) == {}
      ensures HeadsOf(old(Model), heads, starts, comps, members)
      ensures UnionOf(comps) == UngroupedHeads(old(Model))
    {
      ghost var S0 := Model;
      heads, starts, comps, members := [], [], [], [];
      var gridRow := 1;
      while gridRow < GridRows - 1
        invariant 1 <= gridRow
        invariant Valid() && Repr == old(Repr)
        invariant GroupsOnlyRise(S0, Model) && GroupedAreHeads(Model) && Frontier(Model) == {}
        invariant HeadsOf(S0, heads, starts, comps, members) && UnionOf(comps) == GroupedCells(Model) - GroupedCells(S0)
        invariant forall i :: 0 <= i < |starts| ==> Before(starts[i], Cell(gridRow, 1))
        invariant forall x :: UngroupedHead(Model, x) ==> !Before(x, Cell(gridRow, 1))
      {
        heads, starts, comps, members := GroupRow(gridRow, S0, heads, starts, comps, members);
        gridRow := gridRow + 1;
      }
      ScanEnd(S0, Model, GridRows, GridCols, gridRow);
    }

    /**
     * Detects the heads of one frame: resets the interior pylons from the
     * range image, discards the tails, and groups the heads left into one
     * head per 4-connected component. Afterwards each interior pylon holds the
     * range probed under it, a non-border pylon is a head exactly when no
     * neighbour discards it, the components found partition the heads, and
     * each head is on the range of every pylon of its component.
     */
    method DetectHeads(rangeData: BitmapDataMethods.BitmapData)
      returns (heads: seq<Head>, ghost starts: seq<Cell>, ghost comps: seq<set<Cell>>, ghost members: seq<seq<Pylon>>)
      requires Valid() && rangeData.Valid()
      requires rangeData.Width == ImgWidth && rangeData.Height == ImgHeight && ImgWidth <= rangeData.Stride
      modifies this`Model, Repr, Filter.Repr()
      ensures Valid() && Repr == old(Repr)
      ensures forall c :: c in Model && !OnBorder(GridRows, GridCols, c) ==>
          Model[c].Range == FrameStart(c, rangeData.Scan0[..], rangeData.Stride).Range
      ensures Detected(Model, heads, starts, comps, members)
    {
      ResetPylons(rangeData);
      ghost var S1 := Model;
      forall c | c in Model
        ensures !IsTail(Model, c)
      {
      }
      assert TailsGrounded(Model);
      DiscardTailPylons();
      ghost var S2 := Model;
      assert GroupedCells(Model) == {};
      heads, starts, comps, members := GroupHeadPylons();
      RangesKept(S1, S2, Model);
      FrameOutcome(S2, Model, heads, starts, comps, members);
    }

    /**
     * What a frame leaves in state S: no head is discarded by a neighbour, a
     * non-border pylon is a head exactly when no neighbour discards it and
     * exactly when no pylon of its plateau has a strictly nearer non-border
     * neighbour, the heads found come one per 4-connected component of heads
     * as HeadsOf says, the components cover all heads, and each head is on
     * the range of every pylon of its component.
     */
    ghost predicate Detected(S: GridState, heads: seq<Head>, starts: seq<Cell>, comps: seq<set<Cell>>, members: seq<seq<Pylon>>)
    {
      && UnstableCells(S) == {}
      && (forall c :: c in S && !S[c].IsBorder ==> (S[c].IsHead <==> !DiscardedByANeighbour(S, c)))
      && (forall c :: c in S && !S[c].IsBorder ==> (S[c].IsHead <==> !PlateauDrains(S, c)))
      && HeadsOf(S, heads, starts, comps, members) && UnionOf(comps) == HeadCells(S)
      && (forall i, x :: 0 <= i < |comps| && x in comps[i] ==> x in S && heads[i].Range == S[x].Range)
    }

    /** The discard pass's result S2, grouped from scratch into S3, gives what Detected says. */
    lemma FrameOutcome(S2: GridState, S3: GridState, heads: seq<Head>, starts: seq<Cell>, comps: seq<set<Cell>>, members: seq<seq<Pylon>>)
      requires Sentinels(S2, GridRows, GridCols) && GroupedCells(S2) == {} && UnstableCells(S2) == {}
      requires forall c :: c in S2 && !S2[c].IsBorder ==> (S2[c].IsHead <==> !DiscardedByANeighbour(S2, c))
      requires forall c :: c in S2 && !S2[c].IsBorder ==> (S2[c].IsHead <==> !PlateauDrains(S2, c))
      requires GroupsOnlyRise(S2, S3) && HeadsOf(S2, heads, starts, comps, members) && UnionOf(comps) == UngroupedHeads(S2)
      ensures Detected(S3, heads, starts, comps, members)
    {
      GroupingKeepsHeads(S2, S3);
      FrameGroups(S2, S3, heads, starts, comps, members);
    }

    /** The groups found from S2, with no cell grouped, cover the heads of S3 and each is on its component's range. */
    lemma FrameGroups(S2: GridState, S3: GridState, heads: seq<Head>, starts: seq<Cell>, comps: seq<set<Cell>>, members: seq<seq<Pylon>>)
      requires Sentinels(S2, GridRows, GridCols) && GroupedCells(S2) == {} && UnstableCells(S2) == {}
      requires GroupsOnlyRise(S2, S3) && HeadsOf(S2, heads, starts, comps, members) && UnionOf(comps) == UngroupedHeads(S2)
      ensures HeadsOf(S3, heads, starts, comps, members) && UnionOf(comps) == HeadCells(S3)
      ensures forall i, x :: 0 <= i < |comps| && x in comps[i] ==> x in S3 && heads[i].Range == S3[x].Range
    {
      HeadsOfAcrossGrouping(S2, S3, heads, starts, comps, members);
      HeadRangesUniform(S2, heads, starts, comps, members);
      NothingGroupedYet(S2, S3);
    }

    /**
     * A flat frame: when every non-border pylon is on one range r, no pylon
     * is discarded, and the whole interior of the grid forms a single head on
     * range r.
     */
    lemma FlatFrameOneHead(S: GridState, heads: seq<Head>, starts: seq<Cell>, comps: seq<set<Cell>>, members: seq<seq<Pylon>>, r: int)
      requires Sentinels(S, GridRows, GridCols) && GridRows >= 3 && GridCols >= 3
      requires Detected(S, heads, starts, comps, members)
      requires forall c :: c in S && !S[c].IsBorder ==> S[c].Range == r
      ensures HeadCells(S) == Interior(GridRows, GridCols)
      ensures |heads| == 1 && comps == [Interior(GridRows, GridCols)] && heads[0].Range == r
    {
      var I := Interior(GridRows, GridCols);
      FlatAllHeads(S, GridRows, GridCols, r);
      forall x, y | x in I && y in I
        ensures Linked(I, x, y)
      {
        InteriorLinked(GridRows, GridCols, x, y);
      }
      SingleComponent(I, starts, comps, Cell(1, 1));
      assert Cell(1, 1) in comps[0];
    }

    /**
     * A single nearest pylon: when the non-border pylon at m is strictly
     * nearer than every other non-border pylon, and those all share one
     * range, m is the only head left, and the one head found is on m's range
     * and centred on m's pixel.
     */
    lemma IsolatedMinimumOneHead(S: GridState, heads: seq<Head>, starts: seq<Cell>, comps: seq<set<Cell>>, members: seq<seq<Pylon>>, m: Cell, r: int)
      requires Sentinels(S, GridRows, GridCols)
      requires Detected(S, heads, starts, comps, members)
      requires m in S && !S[m].IsBorder && S[m].Range < r
      requires forall c :: c in S && !S[c].IsBorder && c != m ==> S[c].Range == r
      ensures HeadCells(S) == {m}
      ensures |heads| == 1 && comps == [{m}]
      ensures heads[0] == Head(S[m].Range, m.Col * PyStep + PyStep / 2, m.Row * PyStep + PyStep / 2)
    {
      MinimumIsOnlyHead(S, m, r);
      LinkedToItself({m}, m);
      SingleComponent({m}, starts, comps, m);
      SingleCellHead(S, heads[0], members[0], m, PyStep);
    }

    /** The strictly nearest non-border pylon, on a background of one range, is the only head left. */
    lemma MinimumIsOnlyHead(S: GridState, m: Cell, r: int)
      requires Sentinels(S, GridRows, GridCols) && UnstableCells(S) == {}
      requires forall c :: c in S && !S[c].IsBorder ==> (S[c].IsHead <==> !PlateauDrains(S, c))
      requires m in S && !S[m].IsBorder && S[m].Range < r
      requires forall c :: c in S && !S[c].IsBorder && c != m ==> S[c].Range == r
      ensures HeadCells(S) == {m}
    {
      var I := Interior(GridRows, GridCols);
      forall e | Linked(Level(S, S[m].Range), m, e)
        ensures !HasExit(S, e)
      {
        LinkedEnds(Level(S, S[m].Range), m, e);
      }
      forall c | c in S && !S[c].IsBorder && c != m
        ensures !S[c].IsHead
      {
        var e := InteriorLinkedAround(GridRows, GridCols, c, m);
        LinkedEnds(I - {m}, c, e);
        LinkedWithin(I - {m}, Level(S, r), c, e);
        assert NearerAt(S, m, e);
      }
    }

    /** The state an interior pylon starts a frame with: its probed range, a head, ungrouped. */
    ghost function FrameStart(c: Cell, buf: seq<byte>, stride: int): PylonState
      requires Dimensioned() && InGrid(GridRows, GridCols, c)
      requires ImgWidth <= stride && ImgHeight * stride <= |buf|
    {
      GridSlotInside(c.Col, PyStep, ImgWidth);
      GridSlotInside(c.Row, PyStep, ImgHeight);
      PylonState(ProbeAt(c.Col * PyStep + PyStep / 2, c.Row * PyStep + PyStep / 2, buf, stride), false, true, false)
    }

    /** A pylon sits on a pixel of the image. */
    lemma PixelPositionInImage(c: Cell)
      requires Shaped() && InGrid(GridRows, GridCols, c)
      ensures 0 <= PylonAt(c.Row, c.Col).ImgX < ImgWidth && 0 <= PylonAt(c.Row, c.Col).ImgY < ImgHeight
    {
      GridSlotInside(c.Col, PyStep, ImgWidth);
      GridSlotInside(c.Row, PyStep, ImgHeight);
    }

    /**
     * Resets every interior pylon from the image; the border ring is left as it
     * is. Afterwards every interior pylon is an ungrouped head on its probed range.
     */
    method ResetPylons(rangeData: BitmapDataMethods.BitmapData)
      requires Valid() && rangeData.Valid()
      requires rangeData.Width == ImgWidth && rangeData.Height == ImgHeight && ImgWidth <= rangeData.Stride
      modifies this`Model, Repr, Filter.Repr()
      ensures Valid() && Model.Keys == old(Model).Keys
      ensures forall c :: c in Model ==>
          Model[c] == (if OnBorder(GridRows, GridCols, c) then old(Model)[c] else FrameStart(c, rangeData.Scan0[..], rangeData.Stride))
    {
      var scan0 := rangeData.Scan0;
      var stride := rangeData.Stride;
      ghost var buf := scan0[..];
      ghost var S0 := Model;
      var gridRow := 1;
      while gridRow < GridRows - 1
        invariant 1 <= gridRow && scan0[..] == buf
        invariant Coupled() && Model.Keys == S0.Keys
        invariant forall c :: c in Model ==>
            Model[c] == (if !OnBorder(GridRows, GridCols, c) && c.Row < gridRow then FrameStart(c, buf, stride) else S0[c])
      {
        ResetRow(gridRow, scan0, stride);
        gridRow := gridRow + 1;
      }
      assert forall c :: c in Model ==> (!OnBorder(GridRows, GridCols, c) ==> c.Row < gridRow);
    }
  }

  /** The head of a group of the single cell m is on m's range, centred on the pixel of m's pylon. */
  lemma SingleCellHead(S: GridState, h: Head, ms: seq<Pylon>, m: Cell, step: int)
    requires GroupHead(S, h, ms, {m}, step)
    ensures m in S && h == Head(S[m].Range, m.Col * step + step / 2, m.Row * step + step / 2)
  {
    SingleMember(ms, m);
    assert SumX(ms) == SumX([]) + ms[0].ImgX && SumY(ms) == SumY([]) + ms[0].ImgY;
    DivTruncByOne(SumX(ms));
    DivTruncByOne(SumY(ms));
  }

  /** A group whose members cover the single cell m, each cell once, has one member. */
  lemma SingleMember(ms: seq<Pylon>, m: Cell)
    requires |ms| > 0 && MemberCells(ms) == {m} && NoDuplicates(CellsOf(ms))
    ensures ms == [ms[0]] && CellOf(ms[0]) == m
  {
    assert forall i :: 0 <= i < |ms| ==> CellOf(ms[i]) in MemberCells(ms);
    FirstTwoDistinct(ms);
  }

  lemma FirstTwoDistinct(ms: seq<Pylon>)
    requires NoDuplicates(CellsOf(ms))
    ensures |ms| > 1 ==> CellOf(ms[0]) != CellOf(ms[1])
  {
    if |ms| > 1 {
      assert CellsOf(ms)[0] != CellsOf(ms)[1];
    }
  }

  /** Adding what was newly grouped in two steps is adding what was newly grouped overall. */
  lemma GrowingUnion<T>(A0: set<T>, Ab: set<T>, Aa: set<T>, G0: set<T>, Gb: set<T>, Ga: set<T>)
    requires Ab == A0 + (Gb - G0) && Aa == Ab + (Ga - Gb) && G0 <= Gb <= Ga
    ensures Aa == A0 + (Ga - G0)
  {
  }

  /** What was added in two steps is what was added overall. */
  lemma Telescope<T>(G0: set<T>, Gb: set<T>, Ga: set<T>)
    requires G0 <= Gb <= Ga
    ensures (Gb - G0) + (Ga - Gb) == Ga - G0
  {
  }

  /** Pixel (x, y) of an image of `height` rows of `stride` >= x+1 bytes lies in a buffer holding all the rows. */
  lemma PixelInBuffer(x: int, y: int, height: int, stride: int, len: int)
    requires 0 <= x < stride && 0 <= y < height && height * stride <= len
    ensures 0 <= y * stride + x < len
  {
    MulMonotone(y + 1, height, stride);
    MulMonotone(0, y, stride);
  }

  /**
   * When the square of the given radius around (imgX, imgY) lies inside a
   * w-by-h image whose rows of `stride` >= w bytes are all in the buffer, so
   * does the filter's kernel.
   */
  lemma KernelInsideImage(imgX: int, imgY: int, radius: int, w: int, h: int, len: int, stride: int)
    requires radius >= 0 && imgX - radius >= 0 && imgX + radius < w && imgY - radius >= 0 && imgY + radius < h
    requires w <= stride && h * stride <= len
    ensures FastMedianFilter.KernelInBuffer(imgX, imgY, radius, len, stride)
  {
    var maxY := imgY + radius;
    assert (maxY + 1) * stride <= h * stride by {
      MulMonotone(maxY + 1, h, stride);
    }
    assert (maxY + 1) * stride == maxY * stride + stride;
  }

  /** The pixel at the middle of slot i of size `step` lies inside an extent holding extent/step slots. */
  lemma GridSlotInside(i: int, step: int, extent: int)
    requires step >= 1 && extent >= 0 && 0 <= i < extent / step
    ensures 0 <= i * step + step / 2 < extent
  {
    MulMonotone(i + 1, extent / step, step);
    MulMonotone(0, i, step);
    assert (i + 1) * step == i * step + step;
  }
}
