/**
 * The pylon grid as a value: a map from grid cells to pylon states. The
 * detector's two flood-fills are specified and reasoned about here; the
 * detector class proves that its in-place passes follow these definitions.
 */
module GridModel {
  import opened Pylons

  datatype Cell = Cell(Row: int, Col: int)

  type GridState = map<Cell, PylonState>

  /*
   * Geometry
   */

  predicate InGrid(rows: int, cols: int, c: Cell)
  {
    0 <= c.Row < rows && 0 <= c.Col < cols
  }

  /** The outer ring of the grid: first or last row or column. */
  predicate OnBorder(rows: int, cols: int, c: Cell)
  {
    c.Row == 0 || c.Row == rows - 1 || c.Col == 0 || c.Col == cols - 1
  }

  function AllCells(rows: int, cols: int): (s: set<Cell>)
    ensures forall c :: c in s <==> InGrid(rows, cols, c)
  {
    set r, k | 0 <= r < rows && 0 <= k < cols :: Cell(r, k)
  }

  function East(c: Cell): Cell { Cell(c.Row, c.Col + 1) }
  function North(c: Cell): Cell { Cell(c.Row - 1, c.Col) }
  function West(c: Cell): Cell { Cell(c.Row, c.Col - 1) }
  function South(c: Cell): Cell { Cell(c.Row + 1, c.Col) }

  /** 4-neighbourhood. */
  predicate Adjacent(a: Cell, b: Cell)
  {
    b == East(a) || b == North(a) || b == West(a) || b == South(a)
  }

  /** Row-major order: the order in which the passes visit the cells. */
  predicate Before(a: Cell, b: Cell)
  {
    a.Row < b.Row || (a.Row == b.Row && a.Col < b.Col)
  }

  /**
   * The border ring holds sentinels: a pylon is a border pylon exactly when
   * its cell is on the ring, and border pylons are never heads nor grouped.
   */
  predicate Sentinels(S: GridState, rows: int, cols: int)
  {
    && S.Keys == AllCells(rows, cols)
    && forall c :: c in S ==> (S[c].IsBorder <==> OnBorder(rows, cols, c)) && (S[c].IsBorder ==> !S[c].IsHead && !S[c].IsGrouped)
  }

  /** A head's four neighbours are all on the grid, so a flood-fill never leaves it. */
  lemma HeadNeighboursInGrid(S: GridState, rows: int, cols: int, c: Cell)
    requires Sentinels(S, rows, cols) && c in S && S[c].IsHead
    ensures East(c) in S && North(c) in S && West(c) in S && South(c) in S
    ensures 1 <= c.Row < rows - 1 && 1 <= c.Col < cols - 1
  {
  }

  /*
   * Discarding tails
   */

  /** The pylon at c is discarded by the one at a. */
  predicate DiscardsAt(S: GridState, a: Cell, c: Cell)
  {
    a in S && c in S && S[c].IsDiscardedBy(S[a])
  }

  predicate DiscardedByANeighbour(S: GridState, c: Cell)
  {
    DiscardsAt(S, East(c), c) || DiscardsAt(S, North(c), c) || DiscardsAt(S, West(c), c) || DiscardsAt(S, South(c), c)
  }

  /** A head that one of its neighbours discards: the discard pass is not finished with it. */
  predicate Unstable(S: GridState, c: Cell)
  {
    c in S && S[c].IsHead && DiscardedByANeighbour(S, c)
  }

  function UnstableCells(S: GridState): set<Cell>
  {
    set c | c in S && Unstable(S, c)
  }

  function HeadCells(S: GridState): set<Cell>
  {
    set c | c in S && S[c].IsHead
  }

  /** A pylon that is neither a head nor a border sentinel. */
  predicate IsTail(S: GridState, c: Cell)
  {
    c in S && !S[c].IsHead && !S[c].IsBorder
  }

  /** Every non-border tail is discarded by one of its neighbours. */
  ghost predicate TailsJustified(S: GridState)
  {
    forall c :: IsTail(S, c) ==> DiscardedByANeighbour(S, c)
  }

  /** From S0 to S1 the only change is heads turning into tails. */
  predicate HeadsOnlyFall(S0: GridState, S1: GridState)
  {
    && S1.Keys == S0.Keys
    && forall c :: c in S1 ==> S1[c] == S0[c] || (S0[c].IsHead && S1[c] == S0[c].(IsHead := false))
  }

  function MarkTail(S: GridState, c: Cell): GridState
    requires c in S
  {
    S[c := S[c].(IsHead := false)]
  }

  lemma HeadsOnlyFallTransitive(S0: GridState, S1: GridState, S2: GridState)
    requires HeadsOnlyFall(S0, S1) && HeadsOnlyFall(S1, S2)
    ensures HeadsOnlyFall(S0, S2)
  {
  }

  lemma HeadsOnlyFallReflexive(S: GridState)
    ensures HeadsOnlyFall(S, S)
  {
  }

  lemma HeadsOnlyFallKeepsSentinels(S0: GridState, S1: GridState, rows: int, cols: int)
    requires HeadsOnlyFall(S0, S1) && Sentinels(S0, rows, cols)
    ensures Sentinels(S1, rows, cols)
  {
  }

  /** Heads turning into tails never undo a discard. */
  lemma FallKeepsDiscards(S0: GridState, S1: GridState, a: Cell, c: Cell)
    requires HeadsOnlyFall(S0, S1) && DiscardsAt(S0, a, c)
    ensures DiscardsAt(S1, a, c)
  {
    FallingNeighbourStillDiscards(S0[c], S0[a]);
    if S1[c] != S0[c] {
      assert S1[c].IsDiscardedBy(S1[a]) by {
        assert S1[c].Range == S0[c].Range;
      }
    }
  }

  /** Heads turning into tails keep every existing tail justified. */
  lemma FallKeepsJustified(S0: GridState, S1: GridState, c: Cell)
    requires HeadsOnlyFall(S0, S1) && DiscardedByANeighbour(S0, c)
    ensures DiscardedByANeighbour(S1, c)
  {
    if DiscardsAt(S0, East(c), c) {
      FallKeepsDiscards(S0, S1, East(c), c);
    } else if DiscardsAt(S0, North(c), c) {
      FallKeepsDiscards(S0, S1, North(c), c);
    } else if DiscardsAt(S0, West(c), c) {
      FallKeepsDiscards(S0, S1, West(c), c);
    } else {
      FallKeepsDiscards(S0, S1, South(c), c);
    }
  }

  /**
   * Making the head at c a tail, when some neighbour (in the new state)
   * discards it, keeps all tails justified and changes nothing else.
   */
  lemma MarkTailKeepsJustified(S: GridState, c: Cell)
    requires c in S && S[c].IsHead && TailsJustified(S)
    requires DiscardedByANeighbour(MarkTail(S, c), c)
    ensures HeadsOnlyFall(S, MarkTail(S, c))
    ensures TailsJustified(MarkTail(S, c))
  {
    var S1 := MarkTail(S, c);
    forall x | x in S1 && !S1[x].IsHead && !S1[x].IsBorder
      ensures DiscardedByANeighbour(S1, x)
    {
      if x != c {
        FallKeepsJustified(S, S1, x);
      }
    }
  }

  /**
   * Making the head at c a tail leaves c stable, and the only cells it can make
   * unstable are neighbouring heads on exactly the same range, which c did not
   * consider as discarding it.
   */
  lemma {:induction false} MarkTailUnstable(S: GridState, c: Cell, x: Cell)
    requires c in S && S[c].IsHead && !S[c].IsBorder
    requires Unstable(MarkTail(S, c), x)
    ensures x != c
    ensures Unstable(S, x) || (Adjacent(c, x) && S[x].IsHead && S[x].Range == S[c].Range && !S[c].IsDiscardedBy(S[x]))
  {
    var S1 := MarkTail(S, c);
    assert x != c;
    assert forall a :: a != c ==> (DiscardsAt(S1, a, x) <==> DiscardsAt(S, a, x));
  }

  /**
   * The pylon at p, from which the fill stepped to c: a non-border tail next to
   * c, no further away than c when c is a head.
   */
  predicate PreviousTail(S: GridState, p: Cell, c: Cell)
  {
    p in S && c in S && Adjacent(c, p) && !S[p].IsBorder && !S[p].IsHead && (S[c].IsHead ==> S[p].Range <= S[c].Range)
  }

  /** The tail the fill came from discards the head it steps to, once that head is marked a tail too. */
  lemma PreviousTailDiscards(S: GridState, p: Cell, c: Cell)
    requires PreviousTail(S, p, c) && S[c].IsHead
    ensures DiscardsAt(MarkTail(S, c), p, c)
  {
  }

  /**
   * The four flags of one discard step at the head c: a neighbour is "visited"
   * when it is the tail the fill came from or when it discards c.
   */
  predicate VisitedFlags(S: GridState, c: Cell, hasPrev: bool, p: Cell, vE: bool, vN: bool, vW: bool, vS: bool)
    requires c in S && East(c) in S && North(c) in S && West(c) in S && South(c) in S
  {
    && vE == ((hasPrev && p == East(c)) || S[c].IsDiscardedBy(S[East(c)]))
    && vN == ((hasPrev && p == North(c)) || S[c].IsDiscardedBy(S[North(c)]))
    && vW == ((hasPrev && p == West(c)) || S[c].IsDiscardedBy(S[West(c)]))
    && vS == ((hasPrev && p == South(c)) || S[c].IsDiscardedBy(S[South(c)]))
  }

  /** When a flag is raised, the head c, marked a tail, is discarded by a neighbour. */
  lemma VisitedJustifies(S: GridState, c: Cell, hasPrev: bool, p: Cell, vE: bool, vN: bool, vW: bool, vS: bool)
    requires c in S && S[c].IsHead && East(c) in S && North(c) in S && West(c) in S && South(c) in S
    requires hasPrev ==> PreviousTail(S, p, c)
    requires VisitedFlags(S, c, hasPrev, p, vE, vN, vW, vS) && (vE || vN || vW || vS)
    ensures DiscardedByANeighbour(MarkTail(S, c), c)
  {
    var S1 := MarkTail(S, c);
    if hasPrev && (p == East(c) || p == North(c) || p == West(c) || p == South(c)) {
      PreviousTailDiscards(S, p, c);
    } else if S[c].IsDiscardedBy(S[East(c)]) {
      FallKeepsDiscards(S, S1, East(c), c);
    } else if S[c].IsDiscardedBy(S[North(c)]) {
      FallKeepsDiscards(S, S1, North(c), c);
    } else if S[c].IsDiscardedBy(S[West(c)]) {
      FallKeepsDiscards(S, S1, West(c), c);
    } else {
      FallKeepsDiscards(S, S1, South(c), c);
    }
  }

  /**
   * A neighbouring head on c's range, not discarding c, is never the tail the
   * fill came from: its flag is down, so the fill continues into it.
   */
  lemma NewlyUnstableUnvisited(S: GridState, c: Cell, hasPrev: bool, p: Cell, vE: bool, vN: bool, vW: bool, vS: bool, x: Cell)
    requires c in S && East(c) in S && North(c) in S && West(c) in S && South(c) in S
    requires hasPrev ==> PreviousTail(S, p, c)
    requires VisitedFlags(S, c, hasPrev, p, vE, vN, vW, vS)
    requires Adjacent(c, x) && x in S && S[x].IsHead && !S[c].IsDiscardedBy(S[x])
    ensures (x == East(c) && !vE) || (x == North(c) && !vN) || (x == West(c) && !vW) || (x == South(c) && !vS)
  {
  }

  /**
   * After c has been marked a tail and heads have only fallen since, c is a
   * valid previous tail for any neighbour d that did not discard it.
   */
  lemma NextPrevious(S0: GridState, Sk: GridState, c: Cell, d: Cell)
    requires c in S0 && S0[c].IsHead && !S0[c].IsBorder && d in S0 && Adjacent(d, c)
    requires !S0[c].IsDiscardedBy(S0[d]) && (S0[d].IsBorder ==> !S0[d].IsHead)
    requires HeadsOnlyFall(MarkTail(S0, c), Sk)
    ensures PreviousTail(Sk, c, d)
  {
    AdjacentSymmetric(c, d);
    assert c != d;
  }

  /** Once c has been marked a tail, the set of heads is strictly smaller than before, whatever fell since. */
  lemma MarkedTailShrinksHeads(S0: GridState, Sk: GridState, c: Cell)
    requires c in S0 && S0[c].IsHead && HeadsOnlyFall(MarkTail(S0, c), Sk)
    ensures HeadCells(Sk) < HeadCells(S0)
  {
    assert c in HeadCells(S0) && c !in HeadCells(Sk);
  }

  /** The neighbours of c whose flag is down: the fill continues into each of them. */
  function Unvisited(c: Cell, vE: bool, vN: bool, vW: bool, vS: bool): set<Cell>
  {
    (if !vE then {East(c)} else {}) + (if !vN then {North(c)} else {})
      + (if !vW then {West(c)} else {}) + (if !vS then {South(c)} else {})
  }

  /** The fill takes the neighbours in the order east, north, west, south, crossing each off in turn. */
  lemma UnvisitedSteps(c: Cell, vE: bool, vN: bool, vW: bool, vS: bool)
    ensures Unvisited(c, vE, vN, vW, vS) - {East(c)} == Unvisited(c, true, vN, vW, vS)
    ensures Unvisited(c, true, vN, vW, vS) - {North(c)} == Unvisited(c, true, true, vW, vS)
    ensures Unvisited(c, true, true, vW, vS) - {West(c)} == Unvisited(c, true, true, true, vS)
    ensures Unvisited(c, true, true, true, vS) - {South(c)} == {}
    ensures vE ==> East(c) !in Unvisited(c, vE, vN, vW, vS)
    ensures vN ==> North(c) !in Unvisited(c, true, vN, vW, vS)
    ensures vW ==> West(c) !in Unvisited(c, true, true, vW, vS)
    ensures vS ==> South(c) !in Unvisited(c, true, true, true, vS)
  {
  }

  /**
   * Marking the head c a tail makes unstable at most the neighbours the fill
   * is about to continue into; c itself is stable afterwards.
   */
  lemma MarkTailPending(S: GridState, rows: int, cols: int, c: Cell, hasPrev: bool, p: Cell, vE: bool, vN: bool, vW: bool, vS: bool)
    requires Sentinels(S, rows, cols) && c in S && S[c].IsHead
    requires East(c) in S && North(c) in S && West(c) in S && South(c) in S
    requires hasPrev ==> PreviousTail(S, p, c)
    requires VisitedFlags(S, c, hasPrev, p, vE, vN, vW, vS)
    ensures UnstableCells(MarkTail(S, c)) <= UnstableCells(S) + Unvisited(c, vE, vN, vW, vS)
    ensures !Unstable(MarkTail(S, c), c)
  {
    forall x | x in UnstableCells(MarkTail(S, c)) ensures x in UnstableCells(S) + Unvisited(c, vE, vN, vW, vS) {
      MarkTailUnstable(S, c, x);
      if !Unstable(S, x) {
        NewlyUnstableUnvisited(S, c, hasPrev, p, vE, vN, vW, vS, x);
      }
    }
  }

  /**
   * One continuation of the fill, into d, keeps heads only falling since S1 and
   * leaves d off the set of cells that may still be newly unstable.
   */
  lemma FillStep(S1: GridState, Sb: GridState, Sa: GridState, U0: set<Cell>, pending: set<Cell>, d: Cell)
    requires HeadsOnlyFall(S1, Sb) && HeadsOnlyFall(Sb, Sa)
    requires UnstableCells(Sb) <= U0 + pending
    requires UnstableCells(Sa) <= UnstableCells(Sb) && !Unstable(Sa, d)
    ensures HeadsOnlyFall(S1, Sa)
    ensures UnstableCells(Sa) <= U0 + (pending - {d})
  {
    HeadsOnlyFallTransitive(S1, Sb, Sa);
  }

  /** Heads, and so unstable pylons, lie inside the border ring. */
  lemma HeadsInside(S: GridState, rows: int, cols: int)
    requires Sentinels(S, rows, cols)
    ensures forall x :: x in S && S[x].IsHead ==> 1 <= x.Row < rows - 1 && 1 <= x.Col < cols - 1
    ensures forall x :: x in UnstableCells(S) ==> 1 <= x.Row < rows - 1 && 1 <= x.Col < cols - 1
  {
    forall x | x in S && S[x].IsHead
      ensures 1 <= x.Row < rows - 1 && 1 <= x.Col < cols - 1
    {
      HeadNeighboursInGrid(S, rows, cols, x);
    }
  }

  /** When the discard pass is finished, a non-border pylon is a head exactly when no neighbour discards it. */
  lemma HeadIffNotDiscarded(S: GridState, c: Cell)
    requires TailsJustified(S) && UnstableCells(S) == {}
    requires c in S && !S[c].IsBorder
    ensures S[c].IsHead <==> !DiscardedByANeighbour(S, c)
  {
    if S[c].IsHead {
      assert c !in UnstableCells(S);
    }
  }

  /**
   * When the discard pass is finished, no head has a non-border neighbour on a
   * strictly nearer range: a pylon further than one of its neighbours is a tail.
   */
  lemma NoHeadBehindANeighbour(S: GridState, c: Cell, a: Cell)
    requires UnstableCells(S) == {}
    requires c in S && S[c].IsHead && a in S && !S[a].IsBorder && Adjacent(c, a)
    ensures S[a].Range >= S[c].Range
  {
    assert c !in UnstableCells(S);
    if S[a].Range < S[c].Range {
      assert DiscardsAt(S, a, c);
      assert false;
    }
  }

  /** When the discard pass is finished, neighbouring heads are on the same range. */
  lemma AdjacentHeadsShareRange(S: GridState, rows: int, cols: int, a: Cell, b: Cell)
    requires Sentinels(S, rows, cols) && UnstableCells(S) == {}
    requires a in S && b in S && S[a].IsHead && S[b].IsHead && Adjacent(a, b)
    ensures S[a].Range == S[b].Range
  {
    NoHeadBehindANeighbour(S, a, b);
    AdjacentSymmetric(a, b);
    NoHeadBehindANeighbour(S, b, a);
  }

  lemma AdjacentSymmetric(a: Cell, b: Cell)
    ensures Adjacent(a, b) <==> Adjacent(b, a)
  {
  }

  /*
   * Connectivity
   */

  /** A walk through 4-adjacent cells of H. */
  predicate IsPath(H: set<Cell>, p: seq<Cell>)
  {
    && |p| >= 1
    && (forall i :: 0 <= i < |p| ==> p[i] in H)
    && (forall i :: 0 <= i < |p| - 1 ==> Adjacent(p[i], p[i + 1]))
  }

  ghost predicate Linked(H: set<Cell>, a: Cell, b: Cell)
  {
    exists p :: IsPath(H, p) && p[0] == a && p[|p| - 1] == b
  }

  /** Every cell of G is linked to s through H. */
  ghost predicate AllLinked(H: set<Cell>, s: Cell, G: set<Cell>)
  {
    forall x {:trigger Linked(H, s, x)} :: x in G ==> Linked(H, s, x)
  }

  /** The 4-connected component of H that holds s. */
  ghost function Component(H: set<Cell>, s: Cell): set<Cell>
  {
    set x | x in H && Linked(H, s, x)
  }

  lemma LinkedToItself(H: set<Cell>, a: Cell)
    requires a in H
    ensures Linked(H, a, a)
  {
    assert IsPath(H, [a]);
  }

  lemma LinkedPrepend(H: set<Cell>, a: Cell, b: Cell, x: Cell)
    requires a in H && Adjacent(a, b) && Linked(H, b, x)
    ensures Linked(H, a, x)
  {
    var p :| IsPath(H, p) && p[0] == b && p[|p| - 1] == x;
    var q := [a] + p;
    assert forall i :: 0 < i < |q| ==> q[i] == p[i - 1];
    assert IsPath(H, q);
  }

  lemma LinkedSymmetric(H: set<Cell>, a: Cell, b: Cell)
    requires Linked(H, a, b)
    ensures Linked(H, b, a)
  {
    var p :| IsPath(H, p) && p[0] == a && p[|p| - 1] == b;
    var q := seq(|p|, i requires 0 <= i < |p| => p[|p| - 1 - i]);
    forall i | 0 <= i < |q| - 1
      ensures Adjacent(q[i], q[i + 1])
    {
      AdjacentSymmetric(p[|p| - 2 - i], p[|p| - 1 - i]);
    }
    assert IsPath(H, q);
  }

  /** G is closed in H: every H-neighbour of a G cell is in G. */
  predicate ClosedIn(G: set<Cell>, H: set<Cell>)
  {
    forall c :: c in G ==>
      (East(c) in H ==> East(c) in G) && (North(c) in H ==> North(c) in G) &&
      (West(c) in H ==> West(c) in G) && (South(c) in H ==> South(c) in G)
  }

  /** A path through H that starts in a closed G stays in G. */
  lemma {:induction false} ClosedPathStays(G: set<Cell>, H: set<Cell>, p: seq<Cell>)
    requires ClosedIn(G, H) && IsPath(H, p) && p[0] in G
    ensures forall i :: 0 <= i < |p| ==> p[i] in G
    decreases |p|
  {
    if |p| > 1 {
      var q := p[1..];
      assert IsPath(H, q) by {
        forall i | 0 <= i < |q| - 1 ensures Adjacent(q[i], q[i + 1]) {
          assert q[i] == p[i + 1] && q[i + 1] == p[i + 2];
        }
      }
      assert Adjacent(p[0], p[1]);
      ClosedPathStays(G, H, q);
      forall i | 0 <= i < |p| ensures p[i] in G {
        if i > 0 {
          assert p[i] == q[i - 1];
        }
      }
    }
  }

  /** Everything linked to a cell of a closed set is in it. */
  lemma ClosedHoldsLinked(G: set<Cell>, H: set<Cell>, a: Cell, b: Cell)
    requires ClosedIn(G, H) && a in G && (Linked(H, a, b) || Linked(H, b, a))
    ensures b in G
  {
    if !Linked(H, a, b) {
      LinkedSymmetric(H, b, a);
    }
    var p :| IsPath(H, p) && p[0] == a && p[|p| - 1] == b;
    ClosedPathStays(G, H, p);
  }

  /** Once the discard pass is finished, every head of a component is on the range of its first cell. */
  lemma {:induction false} ComponentShareRange(S: GridState, rows: int, cols: int, p: seq<Cell>)
    requires Sentinels(S, rows, cols) && UnstableCells(S) == {} && IsPath(HeadCells(S), p)
    ensures forall i :: 0 <= i < |p| ==> S[p[i]].Range == S[p[0]].Range
    decreases |p|
  {
    if |p| > 1 {
      var q := p[..|p| - 1];
      assert IsPath(HeadCells(S), q);
      ComponentShareRange(S, rows, cols, q);
      AdjacentHeadsShareRange(S, rows, cols, p[|p| - 2], p[|p| - 1]);
      forall i | 0 <= i < |p| ensures S[p[i]].Range == S[p[0]].Range {
        if i < |p| - 1 {
          assert p[i] == q[i];
        }
      }
    }
  }

  lemma UniformComponentRange(S: GridState, rows: int, cols: int, s: Cell, x: Cell)
    requires Sentinels(S, rows, cols) && UnstableCells(S) == {}
    requires x in Component(HeadCells(S), s)
    ensures s in S && x in S && S[x].Range == S[s].Range
  {
    var p :| IsPath(HeadCells(S), p) && p[0] == s && p[|p| - 1] == x;
    ComponentShareRange(S, rows, cols, p);
  }

  /*
   * Plateaus: which pylons the discard pass keeps
   */

  /** The pylon at a is a non-border pylon on a strictly nearer range than the one at c. */
  predicate NearerAt(S: GridState, a: Cell, c: Cell)
  {
    a in S && c in S && !S[a].IsBorder && S[a].Range < S[c].Range
  }

  /** The pylon at e has a non-border neighbour on a strictly nearer range. */
  predicate HasExit(S: GridState, e: Cell)
  {
    NearerAt(S, East(e), e) || NearerAt(S, North(e), e) || NearerAt(S, West(e), e) || NearerAt(S, South(e), e)
  }

  /** The non-border pylons on range r. */
  function Level(S: GridState, r: int): set<Cell>
  {
    set c | c in S && !S[c].IsBorder && S[c].Range == r
  }

  /** The non-border tails on range r. */
  function TailLevel(S: GridState, r: int): set<Cell>
  {
    set c | c in S && !S[c].IsHead && !S[c].IsBorder && S[c].Range == r
  }

  /**
   * The plateau of c, the non-border pylons 4-connected to c on its range,
   * holds a pylon with a strictly nearer non-border neighbour.
   */
  ghost predicate PlateauDrains(S: GridState, c: Cell)
  {
    c in S && exists e :: HasExit(S, e) && Linked(Level(S, S[c].Range), c, e)
  }

  /** Through tails on its own range, c reaches a pylon with a strictly nearer non-border neighbour. */
  ghost predicate Grounded(S: GridState, c: Cell)
  {
    c in S && exists e :: HasExit(S, e) && Linked(TailLevel(S, S[c].Range), c, e)
  }

  /** Every non-border tail is grounded: no tail is a tail only because of other tails. */
  ghost predicate TailsGrounded(S: GridState)
  {
    forall c :: IsTail(S, c) ==> Grounded(S, c)
  }

  lemma LinkedWithin(H: set<Cell>, G: set<Cell>, a: Cell, b: Cell)
    requires H <= G && Linked(H, a, b)
    ensures Linked(G, a, b)
  {
    var p :| IsPath(H, p) && p[0] == a && p[|p| - 1] == b;
    assert IsPath(G, p);
  }

  lemma LinkedEnds(H: set<Cell>, a: Cell, b: Cell)
    requires Linked(H, a, b)
    ensures a in H && b in H
  {
    var p :| IsPath(H, p) && p[0] == a && p[|p| - 1] == b;
  }

  /** Marking a head a tail changes no range and no border flag, so no exit and no tail of a range is lost. */
  lemma MarkTailKeepsExits(S: GridState, c: Cell, r: int)
    requires c in S
    ensures forall e :: HasExit(S, e) ==> HasExit(MarkTail(S, c), e)
    ensures TailLevel(S, r) <= TailLevel(MarkTail(S, c), r)
  {
    var S1 := MarkTail(S, c);
    assert forall x :: x in S1 <==> x in S;
    assert forall x :: x in S ==> S1[x].Range == S[x].Range && S1[x].IsBorder == S[x].IsBorder;
  }

  /** The head c, marked a tail because its neighbour a discards it, is grounded. */
  lemma MarkedGroundedVia(S: GridState, c: Cell, a: Cell)
    requires c in S && S[c].IsHead && !S[c].IsBorder && TailsGrounded(S)
    requires Adjacent(c, a) && DiscardsAt(MarkTail(S, c), a, c)
    ensures Grounded(MarkTail(S, c), c)
  {
    var S1 := MarkTail(S, c);
    var r := S[c].Range;
    MarkTailKeepsExits(S, c, r);
    assert c in TailLevel(S1, r);
    if S1[a].Range < S1[c].Range {
      assert NearerAt(S1, a, c) && HasExit(S1, c);
      LinkedToItself(TailLevel(S1, r), c);
    } else {
      assert a != c && S1[a] == S[a] && IsTail(S, a);
      var e :| HasExit(S, e) && Linked(TailLevel(S, r), a, e);
      LinkedWithin(TailLevel(S, r), TailLevel(S1, r), a, e);
      LinkedPrepend(TailLevel(S1, r), c, a, e);
    }
  }

  /**
   * Marking the non-border head c a tail once a neighbour discards it keeps
   * every tail grounded: c is discarded by a nearer pylon, which is its own
   * exit, or by a tail on its range, whose way to an exit c joins.
   */
  lemma MarkTailKeepsGrounded(S: GridState, c: Cell)
    requires c in S && S[c].IsHead && !S[c].IsBorder && TailsGrounded(S)
    requires DiscardedByANeighbour(MarkTail(S, c), c)
    ensures TailsGrounded(MarkTail(S, c))
  {
    var S1 := MarkTail(S, c);
    forall x | IsTail(S1, x)
      ensures Grounded(S1, x)
    {
      if x == c {
        if DiscardsAt(S1, East(c), c) {
          MarkedGroundedVia(S, c, East(c));
        } else if DiscardsAt(S1, North(c), c) {
          MarkedGroundedVia(S, c, North(c));
        } else if DiscardsAt(S1, West(c), c) {
          MarkedGroundedVia(S, c, West(c));
        } else {
          MarkedGroundedVia(S, c, South(c));
        }
      } else {
        var r := S[x].Range;
        MarkTailKeepsExits(S, c, r);
        assert IsTail(S, x);
        var e :| HasExit(S, e) && Linked(TailLevel(S, r), x, e);
        LinkedWithin(TailLevel(S, r), TailLevel(S1, r), x, e);
      }
    }
  }

  /** When no head is unstable, a head's non-border neighbour on its range is a head too. */
  lemma LevelNeighbourIsHead(S: GridState, a: Cell, b: Cell)
    requires UnstableCells(S) == {}
    requires a in S && S[a].IsHead && b in S && !S[b].IsBorder && S[b].Range == S[a].Range && Adjacent(a, b)
    ensures S[b].IsHead
  {
    assert a !in UnstableCells(S);
  }

  /** When no head is unstable, a head has no strictly nearer non-border neighbour. */
  lemma HeadHasNoExit(S: GridState, e: Cell)
    requires UnstableCells(S) == {} && e in S && S[e].IsHead
    ensures !HasExit(S, e)
  {
    assert e !in UnstableCells(S);
  }

  /** When no head is unstable, a walk on one range that starts at a head meets only heads. */
  lemma {:induction false} LevelPathHeads(S: GridState, r: int, p: seq<Cell>)
    requires UnstableCells(S) == {} && IsPath(Level(S, r), p) && S[p[0]].IsHead
    ensures forall i :: 0 <= i < |p| ==> S[p[i]].IsHead
    decreases |p|
  {
    if |p| > 1 {
      var q := p[..|p| - 1];
      assert IsPath(Level(S, r), q);
      LevelPathHeads(S, r, q);
      assert p[|p| - 2] == q[|q| - 1];
      LevelNeighbourIsHead(S, p[|p| - 2], p[|p| - 1]);
      forall i | 0 <= i < |p| ensures S[p[i]].IsHead {
        if i < |p| - 1 {
          assert p[i] == q[i];
        }
      }
    }
  }

  /**
   * When the discard pass is finished with every tail grounded, a non-border
   * pylon is a head exactly when no pylon of its plateau has a strictly
   * nearer non-border neighbour.
   */
  lemma HeadIffPlateauUndrained(S: GridState, c: Cell)
    requires TailsGrounded(S) && UnstableCells(S) == {}
    requires c in S && !S[c].IsBorder
    ensures S[c].IsHead <==> !PlateauDrains(S, c)
  {
    var r := S[c].Range;
    if S[c].IsHead {
      forall e | Linked(Level(S, r), c, e)
        ensures !HasExit(S, e)
      {
        var p :| IsPath(Level(S, r), p) && p[0] == c && p[|p| - 1] == e;
        LevelPathHeads(S, r, p);
        HeadHasNoExit(S, e);
      }
    } else {
      assert IsTail(S, c);
      var e :| HasExit(S, e) && Linked(TailLevel(S, r), c, e);
      LinkedWithin(TailLevel(S, r), Level(S, r), c, e);
    }
  }

  /** The cells inside the border ring. */
  function Interior(rows: int, cols: int): (s: set<Cell>)
    ensures forall c :: c in s <==> 1 <= c.Row < rows - 1 && 1 <= c.Col < cols - 1
  {
    set r, k | 1 <= r < rows - 1 && 1 <= k < cols - 1 :: Cell(r, k)
  }

  /** Steps along the grid between two cells. */
  function Distance(a: Cell, b: Cell): nat
  {
    (if a.Row < b.Row then b.Row - a.Row else a.Row - b.Row) + (if a.Col < b.Col then b.Col - a.Col else a.Col - b.Col)
  }

  /** The next cell on the way from a to b != a: first along the row, then along the column. */
  function Toward(a: Cell, b: Cell): (n: Cell)
    ensures a != b ==> Adjacent(a, n) && Distance(n, b) + 1 == Distance(a, b)
    ensures a == b ==> n == a
  {
    if a.Col < b.Col then East(a)
    else if a.Col > b.Col then West(a)
    else if a.Row < b.Row then South(a)
    else if a.Row > b.Row then North(a)
    else a
  }

  /** Any two interior cells are linked through interior cells. */
  lemma {:induction false} InteriorLinked(rows: int, cols: int, a: Cell, b: Cell)
    requires a in Interior(rows, cols) && b in Interior(rows, cols)
    ensures Linked(Interior(rows, cols), a, b)
    decreases Distance(a, b)
  {
    var I := Interior(rows, cols);
    if a == b {
      LinkedToItself(I, a);
    } else {
      var n := Toward(a, b);
      InteriorLinked(rows, cols, n, b);
      LinkedPrepend(I, a, n, b);
    }
  }

  /**
   * Any interior cell a other than m is linked, through interior cells other
   * than m, to a neighbour e of m.
   */
  lemma {:induction false} InteriorLinkedAround(rows: int, cols: int, a: Cell, m: Cell) returns (e: Cell)
    requires a in Interior(rows, cols) && m in Interior(rows, cols) && a != m
    ensures Adjacent(e, m) && Linked(Interior(rows, cols) - {m}, a, e)
    decreases Distance(a, m)
  {
    var H := Interior(rows, cols) - {m};
    var n := Toward(a, m);
    if n == m {
      e := a;
      LinkedToItself(H, a);
    } else {
      e := InteriorLinkedAround(rows, cols, n, m);
      LinkedPrepend(H, a, n, e);
    }
  }

  /*
   * Grouping heads
   */

  predicate UngroupedHead(S: GridState, c: Cell)
  {
    c in S && S[c].IsHead && !S[c].IsGrouped
  }

  function UngroupedHeads(S: GridState): set<Cell>
  {
    set c | c in S && UngroupedHead(S, c)
  }

  function GroupedCells(S: GridState): set<Cell>
  {
    set c | c in S && S[c].IsGrouped
  }

  /** A grouped cell with an ungrouped head next to it: the grouping fill still owes that neighbour a visit. */
  predicate OnFrontier(S: GridState, c: Cell)
  {
    c in S && S[c].IsGrouped &&
      (UngroupedHead(S, East(c)) || UngroupedHead(S, North(c)) || UngroupedHead(S, West(c)) || UngroupedHead(S, South(c)))
  }

  function Frontier(S: GridState): set<Cell>
  {
    set c | c in S && OnFrontier(S, c)
  }

  /** Only heads are ever grouped. */
  predicate GroupedAreHeads(S: GridState)
  {
    forall c :: c in S && S[c].IsGrouped ==> S[c].IsHead
  }

  /** From S0 to S1 the only change is ungrouped pylons becoming grouped. */
  predicate GroupsOnlyRise(S0: GridState, S1: GridState)
  {
    && S1.Keys == S0.Keys
    && forall c :: c in S1 ==> S1[c] == S0[c] || (!S0[c].IsGrouped && S1[c] == S0[c].(IsGrouped := true))
  }

  function MarkGrouped(S: GridState, c: Cell): GridState
    requires c in S
  {
    S[c := S[c].(IsGrouped := true)]
  }

  lemma GroupsOnlyRiseTransitive(S0: GridState, S1: GridState, S2: GridState)
    requires GroupsOnlyRise(S0, S1) && GroupsOnlyRise(S1, S2)
    ensures GroupsOnlyRise(S0, S2)
  {
  }

  /** Grouping keeps the head set, the ranges and the sentinels. */
  lemma GroupsOnlyRiseKeeps(S0: GridState, S1: GridState, rows: int, cols: int)
    requires GroupsOnlyRise(S0, S1)
    ensures HeadCells(S1) == HeadCells(S0)
    ensures forall c :: c in S1 ==> S1[c].Range == S0[c].Range && S1[c].IsHead == S0[c].IsHead
    ensures Sentinels(S0, rows, cols) && GroupedAreHeads(S1) ==> Sentinels(S1, rows, cols)
    ensures UnstableCells(S1) == UnstableCells(S0)
    ensures GroupedCells(S0) <= GroupedCells(S1)
    ensures GroupedAreHeads(S1) ==> GroupedCells(S1) - GroupedCells(S0) <= UngroupedHeads(S0)
  {
    assert forall a, c :: DiscardsAt(S1, a, c) <==> DiscardsAt(S0, a, c);
    assert forall c :: c in S1 ==> (Unstable(S1, c) <==> Unstable(S0, c));
  }

  /**
   * Grouping the ungrouped head c can put only c itself on the frontier, and
   * c is grouped afterwards.
   */
  lemma MarkGroupedFrontier(S: GridState, c: Cell)
    requires UngroupedHead(S, c) && GroupedAreHeads(S)
    ensures GroupsOnlyRise(S, MarkGrouped(S, c)) && GroupedAreHeads(MarkGrouped(S, c))
    ensures Frontier(MarkGrouped(S, c)) <= Frontier(S) + {c}
    ensures UngroupedHeads(MarkGrouped(S, c)) == UngroupedHeads(S) - {c}
  {
    var S1 := MarkGrouped(S, c);
    forall x | x in Frontier(S1) && x != c ensures x in Frontier(S) {
      assert S1[x] == S[x];
      assert OnFrontier(S1, x);
      if UngroupedHead(S1, East(x)) { assert UngroupedHead(S, East(x)); }
      if UngroupedHead(S1, North(x)) { assert UngroupedHead(S, North(x)); }
      if UngroupedHead(S1, West(x)) { assert UngroupedHead(S, West(x)); }
      if UngroupedHead(S1, South(x)) { assert UngroupedHead(S, South(x)); }
    }
  }

  /** Once the ungrouped head c is grouped, there are fewer ungrouped heads than before. */
  lemma GroupedShrinksUngrouped(S0: GridState, Sk: GridState, c: Cell)
    requires UngroupedHead(S0, c) && GroupsOnlyRise(S0, Sk) && !UngroupedHead(Sk, c)
    ensures UngroupedHeads(Sk) < UngroupedHeads(S0)
  {
    assert c in UngroupedHeads(S0) && c !in UngroupedHeads(Sk);
  }

  /**
   * One continuation of the grouping fill from c into its neighbour d: the
   * grouped cells only grow, the heads stay the same, everything grouped since
   * S0 is still linked to c, and cells that are not ungrouped heads stay so.
   */
  lemma GroupStep(S0: GridState, Sb: GridState, Sa: GridState, c: Cell, d: Cell)
    requires GroupsOnlyRise(S0, Sb) && GroupsOnlyRise(Sb, Sa)
    requires c in HeadCells(S0) && Adjacent(c, d)
    requires AllLinked(HeadCells(S0), c, GroupedCells(Sb) - GroupedCells(S0))
    requires AllLinked(HeadCells(Sb), d, GroupedCells(Sa) - GroupedCells(Sb))
    ensures GroupsOnlyRise(S0, Sa) && HeadCells(Sa) == HeadCells(S0)
    ensures GroupedCells(S0) <= GroupedCells(Sb) <= GroupedCells(Sa)
    ensures AllLinked(HeadCells(S0), c, GroupedCells(Sa) - GroupedCells(S0))
    ensures forall y :: !UngroupedHead(Sb, y) ==> !UngroupedHead(Sa, y)
    ensures Frontier(Sa) <= Frontier(Sb) ==> Frontier(Sb) <= Frontier(S0) + {c} ==> Frontier(Sa) <= Frontier(S0) + {c}
  {
    GroupsOnlyRiseTransitive(S0, Sb, Sa);
    GroupsOnlyRiseKeeps(S0, Sb, 0, 0);
    GroupsOnlyRiseKeeps(Sb, Sa, 0, 0);
    var H := HeadCells(S0);
    forall x | x in GroupedCells(Sa) - GroupedCells(Sb)
      ensures Linked(H, c, x)
    {
      LinkedPrepend(H, c, d, x);
    }
  }

  /** A cell on the frontier after more grouping was already on it, or was not yet grouped before. */
  lemma RisingShrinksFrontier(S0: GridState, S1: GridState, c: Cell)
    requires GroupsOnlyRise(S0, S1) && c in S1
    requires OnFrontier(S1, c)
    ensures OnFrontier(S0, c) || !S0[c].IsGrouped
  {
    if S0[c].IsGrouped {
      assert S1[c] == S0[c];
      if UngroupedHead(S1, East(c)) { assert UngroupedHead(S0, East(c)); }
      if UngroupedHead(S1, North(c)) { assert UngroupedHead(S0, North(c)); }
      if UngroupedHead(S1, West(c)) { assert UngroupedHead(S0, West(c)); }
      if UngroupedHead(S1, South(c)) { assert UngroupedHead(S0, South(c)); }
    }
  }

  /** Once none of c's neighbours is an ungrouped head, c is off the frontier. */
  lemma FrontierSettles(S0: GridState, S: GridState, c: Cell)
    requires Frontier(S) <= Frontier(S0) + {c}
    requires !UngroupedHead(S, North(c)) && !UngroupedHead(S, South(c)) && !UngroupedHead(S, West(c)) && !UngroupedHead(S, East(c))
    ensures Frontier(S) <= Frontier(S0)
  {
    assert !OnFrontier(S, c);
  }

  /** With an empty frontier the grouped cells are closed among the heads. */
  lemma NoFrontierClosed(S: GridState)
    requires Frontier(S) == {} && GroupedAreHeads(S)
    ensures ClosedIn(GroupedCells(S), HeadCells(S))
  {
    forall c | c in GroupedCells(S)
      ensures (East(c) in HeadCells(S) ==> East(c) in GroupedCells(S)) && (North(c) in HeadCells(S) ==> North(c) in GroupedCells(S))
      ensures (West(c) in HeadCells(S) ==> West(c) in GroupedCells(S)) && (South(c) in HeadCells(S) ==> South(c) in GroupedCells(S))
    {
      assert c !in Frontier(S);
      assert !OnFrontier(S, c);
      assert !UngroupedHead(S, East(c)) && !UngroupedHead(S, North(c));
      assert !UngroupedHead(S, West(c)) && !UngroupedHead(S, South(c));
    }
  }

  /**
   * One grouping fill from s, starting and ending with an empty frontier, with
   * every newly grouped cell linked to s and s grouped at the end, groups
   * exactly the 4-connected component of heads holding s.
   */
  lemma FillGroupsComponent(S0: GridState, S1: GridState, s: Cell)
    requires GroupsOnlyRise(S0, S1) && GroupedAreHeads(S0) && GroupedAreHeads(S1)
    requires Frontier(S0) == {} && Frontier(S1) == {}
    requires UngroupedHead(S0, s) && s in S1 && S1[s].IsGrouped
    requires AllLinked(HeadCells(S0), s, GroupedCells(S1) - GroupedCells(S0))
    ensures GroupedCells(S1) - GroupedCells(S0) == Component(HeadCells(S0), s)
  {
    GroupsOnlyRiseKeeps(S0, S1, 0, 0);
    var H := HeadCells(S0);
    NoFrontierClosed(S0);
    NoFrontierClosed(S1);
    forall x | x in Component(H, s) ensures x in GroupedCells(S1) - GroupedCells(S0) {
      ClosedHoldsLinked(GroupedCells(S1), H, s, x);
      if x in GroupedCells(S0) {
        ClosedHoldsLinked(GroupedCells(S0), H, x, s);
        assert false;
      }
    }
  }

  /*
   * The grouping pass as a whole
   */

  /** The union of a sequence of sets of cells. */
  function UnionOf(cs: seq<set<Cell>>): (u: set<Cell>)
  {
    if cs == [] then {} else UnionOf(cs[..|cs| - 1]) + cs[|cs| - 1]
  }

  predicate PairwiseDisjoint(cs: seq<set<Cell>>)
  {
    forall i, j :: 0 <= i < j < |cs| ==> cs[i] !! cs[j]
  }

  lemma {:induction false} UnionOfCovers(cs: seq<set<Cell>>, i: int)
    requires 0 <= i < |cs|
    ensures cs[i] <= UnionOf(cs)
    decreases |cs|
  {
    if i < |cs| - 1 {
      UnionOfCovers(cs[..|cs| - 1], i);
    }
  }

  /** Every cell of the union lies in one of the sets. */
  lemma {:induction false} UnionOfWitness(cs: seq<set<Cell>>, x: Cell) returns (i: int)
    requires x in UnionOf(cs)
    ensures 0 <= i < |cs| && x in cs[i]
    decreases |cs|
  {
    if x in cs[|cs| - 1] {
      i := |cs| - 1;
    } else {
      i := UnionOfWitness(cs[..|cs| - 1], x);
    }
  }

  /** Appending a set disjoint from all before it keeps the sets pairwise disjoint and adds it to the union. */
  lemma AppendDisjoint(cs: seq<set<Cell>>, D: set<Cell>)
    requires PairwiseDisjoint(cs) && D !! UnionOf(cs)
    ensures PairwiseDisjoint(cs + [D]) && UnionOf(cs + [D]) == UnionOf(cs) + D
  {
    var ds := cs + [D];
    assert ds[..|ds| - 1] == cs;
    forall i | 0 <= i < |cs|
      ensures cs[i] !! D
    {
      UnionOfCovers(cs, i);
    }
  }

  /**
   * One step of a row-major scan that groups from cell c: if every ungrouped
   * head lay at or after c, and c is no longer an ungrouped head, every
   * ungrouped head now lies after c, and every newly grouped cell is c or
   * comes after it.
   */
  lemma ScanStep(Sb: GridState, S: GridState, c: Cell)
    requires GroupsOnlyRise(Sb, S) && GroupedAreHeads(S)
    requires forall x :: UngroupedHead(Sb, x) ==> !Before(x, c)
    requires !UngroupedHead(S, c)
    ensures forall x :: UngroupedHead(S, x) ==> !Before(x, Cell(c.Row, c.Col + 1))
    ensures forall x :: x in GroupedCells(S) - GroupedCells(Sb) ==> x == c || Before(c, x)
  {
    GroupsOnlyRiseKeeps(Sb, S, 0, 0);
    forall x | UngroupedHead(S, x)
      ensures !Before(x, Cell(c.Row, c.Col + 1))
    {
      assert UngroupedHead(Sb, x) && x != c;
    }
    forall x | x in GroupedCells(S) - GroupedCells(Sb)
      ensures x == c || Before(c, x)
    {
      assert x in UngroupedHeads(Sb);
    }
  }

  /** At the end of a row of the scan, the ungrouped heads left lie beyond the row. */
  lemma ScanRowEnd(S: GridState, rows: int, cols: int, r: int, k: int)
    requires Sentinels(S, rows, cols) && k >= cols - 1
    requires forall x :: UngroupedHead(S, x) ==> !Before(x, Cell(r, k))
    ensures forall x :: UngroupedHead(S, x) ==> !Before(x, Cell(r + 1, 1))
  {
    forall x | UngroupedHead(S, x)
      ensures !Before(x, Cell(r + 1, 1))
    {
      HeadNeighboursInGrid(S, rows, cols, x);
    }
  }

  /**
   * At the end of the scan no head is left ungrouped, and the cells grouped
   * since S0 are exactly the heads that were ungrouped in S0.
   */
  lemma ScanEnd(S0: GridState, S: GridState, rows: int, cols: int, r: int)
    requires Sentinels(S, rows, cols) && GroupsOnlyRise(S0, S) && GroupedAreHeads(S) && r >= rows - 1
    requires forall x :: UngroupedHead(S, x) ==> !Before(x, Cell(r, 1))
    ensures UngroupedHeads(S) == {}
    ensures GroupedCells(S) - GroupedCells(S0) == UngroupedHeads(S0)
  {
    forall x | UngroupedHead(S, x)
      ensures false
    {
      HeadNeighboursInGrid(S, rows, cols, x);
    }
    GroupsOnlyRiseKeeps(S0, S, rows, cols);
    forall x | x in UngroupedHeads(S0)
      ensures x in GroupedCells(S) - GroupedCells(S0)
    {
      assert !UngroupedHead(S, x);
    }
  }

  /** Grouping changes no head, border or range, so which pylon a neighbour discards is unchanged. */
  lemma GroupingKeepsDiscards(S0: GridState, S1: GridState)
    requires GroupsOnlyRise(S0, S1)
    ensures forall c :: DiscardedByANeighbour(S1, c) <==> DiscardedByANeighbour(S0, c)
  {
    assert forall a, c :: DiscardsAt(S1, a, c) <==> DiscardsAt(S0, a, c);
  }

  /** When every non-border pylon is on one range, no plateau drains, so every interior pylon is a head. */
  lemma FlatAllHeads(S: GridState, rows: int, cols: int, r: int)
    requires Sentinels(S, rows, cols)
    requires forall c :: c in S && !S[c].IsBorder ==> (S[c].IsHead <==> !PlateauDrains(S, c))
    requires forall c :: c in S && !S[c].IsBorder ==> S[c].Range == r
    ensures HeadCells(S) == Interior(rows, cols)
  {
    forall c | c in S && !S[c].IsBorder
      ensures S[c].IsHead
    {
      forall e | Linked(Level(S, S[c].Range), c, e)
        ensures !HasExit(S, e)
      {
        LinkedEnds(Level(S, S[c].Range), c, e);
      }
    }
  }

  /** Disjoint components that cover a connected set H are just one: H itself. */
  lemma SingleComponent(H: set<Cell>, starts: seq<Cell>, comps: seq<set<Cell>>, a: Cell)
    requires a in H && UnionOf(comps) == H && PairwiseDisjoint(comps) && |starts| == |comps|
    requires forall i :: 0 <= i < |comps| ==> starts[i] in H && comps[i] == Component(H, starts[i])
    requires forall x, y :: x in H && y in H ==> Linked(H, x, y)
    ensures comps == [H]
  {
    forall i | 0 <= i < |comps|
      ensures comps[i] == H
    {
      assert forall x :: x in H ==> Linked(H, starts[i], x);
    }
    assert comps != [];
    NoSecondCopy(comps, H, a);
  }

  /** Two pairwise disjoint sets are never both the same non-empty set. */
  lemma NoSecondCopy(comps: seq<set<Cell>>, H: set<Cell>, a: Cell)
    requires PairwiseDisjoint(comps) && a in H
    ensures |comps| > 1 ==> comps[0] != H || comps[1] != H
  {
  }

  /** Grouping changes no head, border or range, so it keeps every plateau and whether it drains. */
  lemma GroupingKeepsPlateaus(S0: GridState, S1: GridState)
    requires GroupsOnlyRise(S0, S1)
    ensures forall c :: c in S0 ==> (PlateauDrains(S1, c) <==> PlateauDrains(S0, c))
  {
    assert forall r :: Level(S1, r) == Level(S0, r);
    assert forall e :: HasExit(S1, e) <==> HasExit(S0, e);
  }

  /** Grouping keeps what the discard pass established about which pylons are heads. */
  lemma GroupingKeepsHeads(S0: GridState, S1: GridState)
    requires GroupsOnlyRise(S0, S1) && UnstableCells(S0) == {}
    requires forall c :: c in S0 && !S0[c].IsBorder ==> (S0[c].IsHead <==> !DiscardedByANeighbour(S0, c))
    requires forall c :: c in S0 && !S0[c].IsBorder ==> (S0[c].IsHead <==> !PlateauDrains(S0, c))
    ensures UnstableCells(S1) == {}
    ensures forall c :: c in S1 && !S1[c].IsBorder ==> (S1[c].IsHead <==> !DiscardedByANeighbour(S1, c))
    ensures forall c :: c in S1 && !S1[c].IsBorder ==> (S1[c].IsHead <==> !PlateauDrains(S1, c))
  {
    GroupsOnlyRiseKeeps(S0, S1, 0, 0);
    GroupingKeepsDiscards(S0, S1);
    GroupingKeepsPlateaus(S0, S1);
  }

  /** Grouping from a state with nothing grouped: every head starts ungrouped, and the heads and ranges are kept. */
  lemma NothingGroupedYet(S0: GridState, S1: GridState)
    requires GroupsOnlyRise(S0, S1) && GroupedCells(S0) == {}
    ensures UngroupedHeads(S0) == HeadCells(S1)
    ensures forall c :: c in S1 ==> S1[c].Range == S0[c].Range
  {
    GroupsOnlyRiseKeeps(S0, S1, 0, 0);
    forall c | c in S0
      ensures UngroupedHead(S0, c) <==> c in HeadCells(S0)
    {
      assert c !in GroupedCells(S0);
    }
  }

  /** Discarding and then grouping change no range. */
  lemma RangesKept(S1: GridState, S2: GridState, S3: GridState)
    requires HeadsOnlyFall(S1, S2) && GroupsOnlyRise(S2, S3)
    ensures S3.Keys == S1.Keys && forall c :: c in S3 ==> S3[c].Range == S1[c].Range
  {
  }
}
