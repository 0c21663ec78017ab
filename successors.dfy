/**
  The move rule of the puzzle (`generateSuccessors`): the empty cell trades
  places with the cell 1, 2 or 3 positions to its left or right.
*/
module Successors {
  import opened Tiles
  import opened Heuristics

  /** The offsets of the empty cell, in the order the program tries them. */
  const Moves: seq<int> := [-3, -2, -1, 1, 2, 3]

  function Abs(d: int): nat
  {
    if d < 0 then -d else d
  }

  /** Cost of a move: 1 for a slide or a jump over one tile, 2 for a jump over two. */
  function MoveCost(d: int): int
  {
    if Abs(d) == 1 || Abs(d) == 2 then 1 else 2
  }

  /** The board with cells `i` and `j` exchanged. */
  function Swap(b: Board, i: int, j: int): Board
    requires 0 <= i < Size && 0 <= j < Size
  {
    b[i := b[j]][j := b[i]]
  }

  /** The offsets among the first `n` of `Moves` that keep the empty cell on the board, in order. */
  function InBoundsMoves(e: int, n: nat): seq<int>
    requires n <= |Moves|
  {
    if n == 0 then []
    else InBoundsMoves(e, n - 1) + (if 0 <= e + Moves[n - 1] < Size then [Moves[n - 1]] else [])
  }

  /** The offsets the program turns into successors for an empty cell at `e`. */
  function Offsets(e: int): seq<int>
  {
    InBoundsMoves(e, |Moves|)
  }

  lemma {:induction false} InBoundsMovesSpec(e: int, n: nat)
    requires n <= |Moves|
    ensures forall d :: d in InBoundsMoves(e, n) <==> d in Moves[..n] && 0 <= e + d < Size
    ensures forall i, j :: 0 <= i < j < |InBoundsMoves(e, n)| ==> InBoundsMoves(e, n)[i] < InBoundsMoves(e, n)[j]
    ensures forall i :: 0 <= i < |InBoundsMoves(e, n)| ==> InBoundsMoves(e, n)[i] in Moves[..n]
  {
    if n > 0 {
      InBoundsMovesSpec(e, n - 1);
      assert Moves[..n] == Moves[..n - 1] + [Moves[n - 1]];
      assert forall i :: 0 <= i < n - 1 ==> Moves[i] < Moves[n - 1];
    }
  }

  /**
    Exactly the in-bounds offsets are used, each once and in the order of
    `Moves`; from any cell of the board there are between 3 and 6 of them.
  */
  lemma OffsetsSpec(e: int)
    requires 0 <= e < Size
    ensures forall d :: d in Offsets(e) <==> d in Moves && 0 <= e + d < Size
    ensures forall i, j :: 0 <= i < j < |Offsets(e)| ==> Offsets(e)[i] < Offsets(e)[j]
    ensures 3 <= |Offsets(e)| <= 6
  {
    InBoundsMovesSpec(e, |Moves|);
    assert Moves[..|Moves|] == Moves;
    InBoundsMovesLength(e, |Moves|);
    if e <= 3 {
      assert InBoundsMoves(e, 4) == InBoundsMoves(e, 3) + [1];
      assert InBoundsMoves(e, 5) == InBoundsMoves(e, 4) + [2];
      assert InBoundsMoves(e, 6) == InBoundsMoves(e, 5) + [3];
    } else {
      assert InBoundsMoves(e, 1) == [-3];
      assert InBoundsMoves(e, 2) == [-3, -2];
      assert InBoundsMoves(e, 3) == [-3, -2, -1];
    }
  }

  lemma {:induction false} InBoundsMovesLength(e: int, n: nat)
    requires n <= |Moves|
    ensures |InBoundsMoves(e, n)| <= n
    ensures forall m :: 0 <= m <= n ==> |InBoundsMoves(e, m)| <= |InBoundsMoves(e, n)|
  {
    if n > 0 {
      InBoundsMovesLength(e, n - 1);
    }
  }

  /** The node the program builds for the move by `d` out of `t`. */
  function Successor(t: TileState, d: int, parentIndex: nat): TileState
    requires 0 <= t.emptySpace < Size && 0 <= t.emptySpace + d < Size
  {
    var board := Swap(t.board, t.emptySpace, t.emptySpace + d);
    var g := t.g + MoveCost(d);
    var h := Heuristic(board);
    TileState(board, g, h, g + h, t.emptySpace + d, Some(parentIndex))
  }

  /** `s` is one of the nodes generated out of `p` when `p` sits at `parentIndex` of the arena. */
  ghost predicate IsSuccessor(p: TileState, parentIndex: nat, s: TileState)
  {
    0 <= p.emptySpace < Size &&
    exists d :: d in Offsets(p.emptySpace) && 0 <= p.emptySpace + d < Size && s == Successor(p, d, parentIndex)
  }

  /** The node is consistent: its empty cell is where it says, and its cells are encoded tiles. */
  predicate WellFormed(t: TileState)
  {
    0 <= t.emptySpace < Size && t.board[t.emptySpace] == Empty && ValidCells(t.board)
  }

  /**
    A move only exchanges the empty cell with the target tile: every other
    cell is unchanged, no tile is created or destroyed, and the new empty
    index holds the empty cell.
  */
  lemma SuccessorConserves(t: TileState, d: int, parentIndex: nat)
    requires WellFormed(t) && 0 <= t.emptySpace + d < Size
    ensures var s := Successor(t, d, parentIndex);
            && WellFormed(s)
            && s.emptySpace == t.emptySpace + d
            && s.board[t.emptySpace] == t.board[t.emptySpace + d]
            && (forall i :: 0 <= i < Size && i != t.emptySpace && i != s.emptySpace ==> s.board[i] == t.board[i])
            && multiset(s.board) == multiset(t.board)
  {
  }

  /**
    The costs of a generated node: g grows by 1 for a move of one or two cells
    and by 2 for a move of three, h is the heuristic of the new board and f is
    g + h; the heuristic changes by at most the cost of the move (it is
    consistent, a property derived from the definition).
  */
  lemma SuccessorCosts(t: TileState, d: int, parentIndex: nat)
    requires WellFormed(t) && d in Moves && 0 <= t.emptySpace + d < Size
    ensures var s := Successor(t, d, parentIndex);
            && s.g - t.g == (if d == 3 || d == -3 then 2 else 1)
            && s.h == |Inversions(s.board)|
            && s.f == s.g + s.h
            && Heuristic(t.board) <= s.g - t.g + s.h
            && s.h <= s.g - t.g + Heuristic(t.board)
  {
    var s := Successor(t, d, parentIndex);
    SwapWithEmptyChange(t.board, t.emptySpace, t.emptySpace + d);
    HeuristicCountsInversions(s.board);
  }

  /** `generateSuccessors`: one successor per in-bounds offset, in the order of `Moves`. */
  method GenerateSuccessors(currentTile: TileState, parentIndex: nat) returns (successors: seq<TileState>)
    requires 0 <= currentTile.emptySpace < Size
    ensures |successors| == |Offsets(currentTile.emptySpace)|
    ensures forall k :: 0 <= k < |successors| ==>
              0 <= currentTile.emptySpace + Offsets(currentTile.emptySpace)[k] < Size &&
              successors[k] == Successor(currentTile, Offsets(currentTile.emptySpace)[k], parentIndex)
    ensures forall s :: s in successors <==> IsSuccessor(currentTile, parentIndex, s)
  {
    successors := [];
    var emptySpace := currentTile.emptySpace;
    var moves := Moves;
    for i := 0 to |moves|
      invariant successors == SuccessorsUpTo(currentTile, parentIndex, i)
    {
      var newEmptySpace := emptySpace + moves[i];
      if 0 <= newEmptySpace < Size {
        var board := Swap(currentTile.board, emptySpace, newEmptySpace);
        var g := currentTile.g + (if Abs(moves[i]) == 1 || Abs(moves[i]) == 2 then 1 else 2);
        var h := CalcHeuristic(board);
        var successor := TileState(board, g, h, g + h, newEmptySpace, Some(parentIndex));
        successors := successors + [successor];
      }
    }
    AllSuccessors(currentTile, parentIndex);
  }

  /** The successors for all offsets are exactly the nodes generated by the in-bounds moves, in order. */
  lemma AllSuccessors(t: TileState, parentIndex: nat)
    requires 0 <= t.emptySpace < Size
    ensures var all := SuccessorsUpTo(t, parentIndex, |Moves|);
            && |all| == |Offsets(t.emptySpace)|
            && (forall k :: 0 <= k < |all| ==>
                  0 <= t.emptySpace + Offsets(t.emptySpace)[k] < Size &&
                  all[k] == Successor(t, Offsets(t.emptySpace)[k], parentIndex))
            && (forall s :: s in all <==> IsSuccessor(t, parentIndex, s))
  {
    var e := t.emptySpace;
    var all := SuccessorsUpTo(t, parentIndex, |Moves|);
    SuccessorsUpToSpec(t, parentIndex, |Moves|);
    forall s
      ensures s in all <==> IsSuccessor(t, parentIndex, s)
    {
      if s in all {
        var k :| 0 <= k < |all| && all[k] == s;
        assert Offsets(e)[k] in Offsets(e);
      }
      if IsSuccessor(t, parentIndex, s) {
        var d :| d in Offsets(e) && 0 <= e + d < Size && s == Successor(t, d, parentIndex);
        var k :| 0 <= k < |Offsets(e)| && Offsets(e)[k] == d;
        assert all[k] == s;
      }
    }
  }

  /** The successors for the first `n` offsets of `Moves`. */
  function SuccessorsUpTo(t: TileState, parentIndex: nat, n: nat): seq<TileState>
    requires 0 <= t.emptySpace < Size && n <= |Moves|
  {
    if n == 0 then []
    else
      var e := t.emptySpace + Moves[n - 1];
      SuccessorsUpTo(t, parentIndex, n - 1)
        + (if 0 <= e < Size then [Successor(t, Moves[n - 1], parentIndex)] else [])
  }

  lemma {:induction false} SuccessorsUpToSpec(t: TileState, parentIndex: nat, n: nat)
    requires 0 <= t.emptySpace < Size && n <= |Moves|
    ensures |SuccessorsUpTo(t, parentIndex, n)| == |InBoundsMoves(t.emptySpace, n)|
    ensures forall k :: 0 <= k < |SuccessorsUpTo(t, parentIndex, n)| ==>
              0 <= t.emptySpace + InBoundsMoves(t.emptySpace, n)[k] < Size &&
              SuccessorsUpTo(t, parentIndex, n)[k] == Successor(t, InBoundsMoves(t.emptySpace, n)[k], parentIndex)
  {
    if n > 0 {
      SuccessorsUpToSpec(t, parentIndex, n - 1);
    }
  }
}
