/**
  The state model of the 7-cell sliding-tile puzzle: the board, its cell encoding
  and the search node (`TileState` in SlidingTilePuzzle.cpp).
*/
module Tiles {

  datatype Option<T> = None | Some(value: T)

  /** Cell encoding of the program: 0 is the empty cell, 1 a white tile, 2 a black tile. */
  const Empty := 0
  const White := 1
  const Black := 2

  /** Number of cells of the board (`int board[7]`). */
  const Size := 7

  /** A board is the fixed-size cell array of a node. */
  type Board = b: seq<int> | |b| == Size witness [0, 0, 0, 0, 0, 0, 0]

  /** Every cell holds one of the three encoded values. */
  predicate ValidCells(b: seq<int>)
  {
    forall i :: 0 <= i < |b| ==> Empty <= b[i] <= Black
  }

  /**
    One search node. `parent` is the index, in the search's arena of expanded
    nodes, of the node this one was generated from; the initial node has none.
  */
  datatype TileState = TileState(board: Board, g: int, h: int, f: int, emptySpace: int, parent: Option<nat>)

  /** Number of cells of `s` holding `v`, counted from the left as the program's loops do. */
  function Count(s: seq<int>, v: int): nat
  {
    if s == [] then 0 else Count(s[..|s| - 1], v) + (if s[|s| - 1] == v then 1 else 0)
  }

  lemma {:induction false} CountBound(s: seq<int>, v: int)
    ensures Count(s, v) <= |s|
  {
    if s != [] {
      CountBound(s[..|s| - 1], v);
    }
  }

  lemma {:induction false} CountConcat(a: seq<int>, b: seq<int>, v: int)
    ensures Count(a + b, v) == Count(a, v) + Count(b, v)
  {
    if b != [] {
      assert (a + b)[..|a + b| - 1] == a + b[..|b| - 1];
      CountConcat(a, b[..|b| - 1], v);
    } else {
      assert a + b == a;
    }
  }

  /** Two distinct cells holding the same value make it occur at least twice. */
  lemma TwoOccurrences(s: seq<int>, i: int, j: int)
    requires 0 <= i < j < |s| && s[i] == s[j]
    ensures multiset(s)[s[i]] >= 2
  {
    assert s == s[..i] + [s[i]] + s[i + 1..j] + [s[j]] + s[j + 1..];
  }
}
