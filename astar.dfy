/**
  The A* search of the program (`aStarSearch`) and the walk up the parent
  links that recovers the solution (`printSolutionPath`).

  The frontier is a multiset of nodes from which a node of least f is taken;
  the closed list is the set of keys of the boards already expanded. Parent
  pointers are indices into `arena`, the sequence of expanded nodes in the
  order they were expanded.
*/
module AStar {
  import opened Tiles
  import opened Heuristics
  import opened Successors
  import opened BoardKey

  datatype SearchResult = Solved(path: seq<TileState>, totalCost: int) | NoSolution

  /** The initial node as the program builds it: g = 0, f left at 0, the empty cell taken to be at index 3. */
  function InitialTile(board: Board): TileState
  {
    TileState(board, 0, Heuristic(board), 0, 3, None)
  }

  /** What holds of every node the search creates. */
  predicate NodeInvariant(board: Board, t: TileState)
  {
    && WellFormed(t)
    && multiset(t.board) == multiset(board)
    && t.h == Heuristic(t.board)
    && t.g >= 0
    && (t.parent.Some? ==> t.f == t.g + t.h)
    && (t.parent.None? ==> t == InitialTile(board))
  }

  /** The parent of `t`, if any, is an arena entry below `bound` out of which `t` was generated. */
  ghost predicate Linked(arena: seq<TileState>, t: TileState, bound: int)
  {
    t.parent.Some? ==>
      t.parent.value < bound <= |arena| && IsSuccessor(arena[t.parent.value], t.parent.value, t)
  }

  /** Every arena entry is a node of the search whose parent sits earlier in the arena. */
  ghost predicate LinkedArena(board: Board, arena: seq<TileState>)
  {
    forall k :: 0 <= k < |arena| ==> NodeInvariant(board, arena[k]) && Linked(arena, arena[k], k)
  }

  /** Parent indices point strictly backwards (which makes the walk up the links terminate). */
  predicate BackLinked(arena: seq<TileState>)
  {
    forall k :: 0 <= k < |arena| && arena[k].parent.Some? ==> arena[k].parent.value < k
  }

  /**
    A path as the program collects it, goal first: it ends at the initial node,
    every node is generated out of the next one, and no tile is created or lost.
  */
  ghost predicate IsSolutionPath(board: Board, path: seq<TileState>)
  {
    && |path| >= 1
    && path[|path| - 1] == InitialTile(board)
    && (forall k :: 0 <= k < |path| ==> WellFormed(path[k]) && multiset(path[k].board) == multiset(board))
    && (forall k :: 0 <= k < |path| - 1 ==>
          path[k].parent.Some? && IsSuccessor(path[k + 1], path[k].parent.value, path[k]))
  }

  /** `t` has the least f of the frontier. */
  predicate IsMinF(t: TileState, open: multiset<TileState>)
  {
    forall m :: m in open ==> t.f <= m.f
  }

  /** A non-empty frontier has a node of least f (what the priority queue's `top` returns). */
  lemma {:induction false} MinimumExists(open: multiset<TileState>)
    requires |open| > 0
    ensures exists t :: t in open && IsMinF(t, open)
    decreases |open|
  {
    var x :| x in open;
    var rest := open - multiset{x};
    if |rest| == 0 {
      assert open == multiset{x};
      assert IsMinF(x, open);
    } else {
      MinimumExists(rest);
      var m :| m in rest && IsMinF(m, rest);
      assert open == rest + multiset{x};
      if x.f < m.f {
        assert IsMinF(x, open);
      } else {
        assert IsMinF(m, open);
      }
    }
  }

  /** All 3^n sequences of n encoded cells. */
  ghost function AllBoards(n: nat): set<seq<int>>
  {
    if n == 0 then {[]}
    else set s, c | s in AllBoards(n - 1) && c in {Empty, White, Black} :: s + [c]
  }

  lemma {:induction false} InAllBoards(b: seq<int>)
    requires ValidCells(b)
    ensures b in AllBoards(|b|)
  {
    if b != [] {
      var p := b[..|b| - 1];
      assert ValidCells(p) by {
        assert forall i :: 0 <= i < |p| ==> p[i] == b[i];
      }
      InAllBoards(p);
      assert b == p + [b[|b| - 1]];
    }
  }

  /** The keys of all boards of encoded cells: a finite bound on the closed list. */
  ghost function AllKeys(): set<string>
  {
    set b | b in AllBoards(Size) :: Key(b)
  }

  /** The keys of the expanded boards. */
  ghost function ArenaKeys(arena: seq<TileState>): set<string>
  {
    set k | 0 <= k < |arena| :: Key(arena[k].board)
  }

  /**
    The walk of `printSolutionPath` up the parent links, collecting the nodes
    goal first, down to the node that has no parent.
  */
  method SolutionPath(arena: seq<TileState>, goalTile: TileState) returns (solutionPath: seq<TileState>)
    requires BackLinked(arena)
    requires goalTile.parent.Some? ==> goalTile.parent.value < |arena|
    ensures |solutionPath| >= 1 && solutionPath[0] == goalTile
    ensures solutionPath[|solutionPath| - 1].parent.None?
    ensures forall k :: 0 <= k < |solutionPath| - 1 ==>
              && solutionPath[k].parent.Some?
              && solutionPath[k].parent.value < |arena|
              && solutionPath[k + 1] == arena[solutionPath[k].parent.value]
  {
    solutionPath := [];
    var currentTile := goalTile;
    while currentTile.parent.Some?
      invariant currentTile.parent.Some? ==> currentTile.parent.value < |arena|
      invariant (solutionPath + [currentTile])[0] == goalTile
      invariant forall k :: 0 <= k < |solutionPath| ==>
                  && solutionPath[k].parent.Some?
                  && solutionPath[k].parent.value < |arena|
                  && (solutionPath + [currentTile])[k + 1] == arena[solutionPath[k].parent.value]
      decreases if currentTile.parent.Some? then currentTile.parent.value + 1 else 0
    {
      solutionPath := solutionPath + [currentTile];
      currentTile := arena[currentTile.parent.value];
    }
    solutionPath := solutionPath + [currentTile];
  }

  /** The chain collected from a linked arena is a solution path for the input board. */
  lemma ChainIsSolutionPath(board: Board, arena: seq<TileState>, path: seq<TileState>)
    requires LinkedArena(board, arena)
    requires |path| >= 1 && NodeInvariant(board, path[0]) && Linked(arena, path[0], |arena|)
    requires path[|path| - 1].parent.None?
    requires forall k :: 0 <= k < |path| - 1 ==>
               && path[k].parent.Some?
               && path[k].parent.value < |arena|
               && path[k + 1] == arena[path[k].parent.value]
    ensures IsSolutionPath(board, path)
  {
    forall k | 0 < k < |path|
      ensures NodeInvariant(board, path[k]) && Linked(arena, path[k], |arena|)
    {
      var q := path[k - 1].parent.value;
      assert path[k] == arena[q];
    }
  }

  /** Each move costs 1 or 2, so a solution's cost lies between its number of moves and twice that. */
  lemma {:induction false} SolutionCost(board: Board, path: seq<TileState>)
    requires IsSolutionPath(board, path)
    ensures |path| - 1 <= path[0].g <= 2 * (|path| - 1)
  {
    if |path| > 1 {
      var p := path[1..];
      assert IsSolutionPath(board, p) by {
        forall k | 0 <= k < |p| - 1
          ensures p[k].parent.Some? && IsSuccessor(p[k + 1], p[k].parent.value, p[k])
        {
          assert p[k] == path[k + 1] && p[k + 1] == path[k + 2];
        }
      }
      SolutionCost(board, p);
      assert path[0].parent.Some? && IsSuccessor(path[1], path[0].parent.value, path[0]);
      var d :| d in Offsets(path[1].emptySpace) && 0 <= path[1].emptySpace + d < Size
               && path[0] == Successor(path[1], d, path[0].parent.value);
    }
  }

  /** Every frontier node is a node of the search whose parent is in the arena. */
  ghost predicate FrontierOk(board: Board, arena: seq<TileState>, open: multiset<TileState>)
  {
    forall t :: t in open ==> NodeInvariant(board, t) && Linked(arena, t, |arena|)
  }

  /**
    The arena holds nodes of the search, linked backwards, starting with the
    initial node, no two with the same board and none of them a goal.
  */
  ghost predicate ArenaOk(board: Board, arena: seq<TileState>)
  {
    && LinkedArena(board, arena)
    && (|arena| > 0 ==> arena[0] == InitialTile(board))
    && (forall i, j :: 0 <= i < j < |arena| ==> arena[i].board != arena[j].board)
    && (forall k :: 0 <= k < |arena| ==> !NoInversion(arena[k].board))
  }

  /**
    What holds between two rounds of the search loop: the frontier and the
    arena are well formed, the closed list is exactly the keys of the arena,
    the frontier is the initial node until the first expansion, and every move
    out of an expanded board leads to an expanded board or a board on the
    frontier.
  */
  ghost predicate SearchOk(board: Board, open: multiset<TileState>, closed: set<string>, arena: seq<TileState>)
  {
    && FrontierOk(board, arena, open)
    && ArenaOk(board, arena)
    && closed == ArenaKeys(arena) && closed <= AllKeys()
    && (|arena| == 0 ==> open == multiset{InitialTile(board)})
    && CoveredBelow(arena, open, |arena|)
  }

  /**
    What holds while the successors of the last arena entry are handled: the
    first `handled` of them are expanded or on the frontier, and the moves of
    the older entries stay covered.
  */
  ghost predicate ExpandingOk(board: Board, open: multiset<TileState>, arena: seq<TileState>, handled: seq<TileState>)
  {
    && FrontierOk(board, arena, open)
    && CoveredBelow(arena, open, |arena| - 1)
    && (forall s :: s in handled ==> s.board in ArenaBoards(arena) + OpenBoards(open))
  }

  /**
    `aStarSearch`: pop a node of least f; stop if it is a goal; skip it if its
    board was already expanded; otherwise close its key, keep it in the
    arena and push the successors whose keys are not closed.
  */
  method AStarSearch(board: Board) returns (result: SearchResult, ghost expanded: seq<TileState>)
    requires ValidCells(board) && board[3] == Empty
    ensures ArenaOk(board, expanded)
    ensures result.Solved? ==>
              && IsSolutionPath(board, result.path)
              && NoInversion(result.path[0].board)
              && result.totalCost == result.path[0].f == result.path[0].g
    ensures result.NoSolution? ==>
              && |expanded| > 0
              && CoveredBelow(expanded, multiset{}, |expanded|)
              && (multiset(board)[Empty] == 1 ==>
                    forall path :: Reaches(board, path) ==> !NoInversion(path[|path| - 1]))
  {
    var initialTile := TileState(board, 0, 0, 0, 3, None);
    var h := CalcHeuristic(board);
    initialTile := initialTile.(h := h);
    var openList := multiset{initialTile};
    var closedList: set<string> := {};
    var arena: seq<TileState> := [];
    StartSearch(board);

    while |openList| > 0
      invariant SearchOk(board, openList, closedList, arena)
      decreases AllKeys() - closedList, |openList|
    {
      MinimumExists(openList);
      var currentTile :| currentTile in openList && IsMinF(currentTile, openList);
      ghost var popped := openList;
      Popped(board, openList, closedList, arena, currentTile);
      openList := openList - multiset{currentTile};

      var goal := IsGoal(currentTile.board);
      if goal {
        var totalCost := currentTile.f;
        var path := SolutionPath(arena, currentTile);
        ChainIsSolutionPath(board, arena, path);
        result, expanded := Solved(path, totalCost), arena;
        return;
      }

      var key := StringTileBoard(currentTile);
      if key in closedList {
        DiscardStep(board, popped, closedList, arena, currentTile);
        continue;
      }
      ExpandStep(board, popped, closedList, arena, currentTile);
      closedList := closedList + {key};
      arena := arena + [currentTile];

      var successors := GenerateSuccessors(currentTile, |arena| - 1);
      AllPushed(board, openList, closedList, arena, successors);
      openList := PushSuccessors(openList, closedList, successors);
    }
    result, expanded := NoSolution, arena;
    Exhausted(board, closedList, arena);
  }

  /** The successors whose keys are not closed, in order: those the search pushes. */
  function Unclosed(successors: seq<TileState>, closed: set<string>): (r: seq<TileState>)
    ensures |r| <= |successors|
    ensures forall s :: s in r <==> s in successors && Key(s.board) !in closed
  {
    if successors == [] then []
    else
      var rest := Unclosed(successors[..|successors| - 1], closed);
      var s := successors[|successors| - 1];
      if Key(s.board) in closed then rest else rest + [s]
  }

  /**
    The loop of `aStarSearch` over the successors of the node just expanded:
    push each one whose key is not closed.
  */
  method PushSuccessors(openList: multiset<TileState>, closedList: set<string>, successors: seq<TileState>)
    returns (pushed: multiset<TileState>)
    ensures pushed == openList + multiset(Unclosed(successors, closedList))
  {
    pushed := openList;
    for i := 0 to |successors|
      invariant pushed == openList + multiset(Unclosed(successors[..i], closedList))
    {
      UnclosedStep(successors, i, closedList);
      var successor := successors[i];
      var successorKey := StringTileBoard(successor);
      if successorKey !in closedList {
        pushed := pushed + multiset{successor};
      }
    }
    assert successors[..|successors|] == successors;
  }

  lemma UnclosedStep(successors: seq<TileState>, i: int, closed: set<string>)
    requires 0 <= i < |successors|
    ensures multiset(Unclosed(successors[..i + 1], closed))
         == multiset(Unclosed(successors[..i], closed))
          + (if Key(successors[i].board) in closed then multiset{} else multiset{successors[i]})
  {
    assert successors[..i + 1][..i] == successors[..i];
  }

  /**
    Pushing the successors whose keys are not closed keeps the frontier
    linked into the arena and leaves each successor expanded or on the frontier.
  */
  lemma {:induction false} PushedCovered(board: Board, open: multiset<TileState>, arena: seq<TileState>,
                                         successors: seq<TileState>)
    requires |arena| > 0 && ArenaOk(board, arena)
    requires ExpandingOk(board, open, arena, [])
    requires forall s :: s in successors ==> NodeInvariant(board, s) && Linked(arena, s, |arena|)
    ensures ExpandingOk(board, open + multiset(Unclosed(successors, ArenaKeys(arena))), arena, successors)
  {
    var closed := ArenaKeys(arena);
    if successors == [] {
      assert open + multiset(Unclosed(successors, closed)) == open;
    } else {
      var p := successors[..|successors| - 1];
      assert forall s :: s in p ==> s in successors;
      PushedCovered(board, open, arena, p);
      PushedLast(board, open, arena, successors);
    }
  }

  /** The step of `PushedCovered` for the last successor. */
  lemma PushedLast(board: Board, open: multiset<TileState>, arena: seq<TileState>, successors: seq<TileState>)
    requires |arena| > 0 && ArenaOk(board, arena) && |successors| > 0
    requires forall s :: s in successors ==> NodeInvariant(board, s) && Linked(arena, s, |arena|)
    requires var p := successors[..|successors| - 1];
             ExpandingOk(board, open + multiset(Unclosed(p, ArenaKeys(arena))), arena, p)
    ensures ExpandingOk(board, open + multiset(Unclosed(successors, ArenaKeys(arena))), arena, successors)
  {
    var closed := ArenaKeys(arena);
    var n := |successors| - 1;
    var p := successors[..n];
    var before := open + multiset(Unclosed(p, closed));
    assert successors[..n + 1] == successors;
    if Key(successors[n].board) in closed {
      assert Unclosed(successors, closed) == Unclosed(p, closed);
      SkipSuccessor(board, before, arena, successors, n);
    } else {
      assert Unclosed(successors, closed) == Unclosed(p, closed) + [successors[n]];
      assert open + multiset(Unclosed(successors, closed)) == before + multiset{successors[n]};
      KeepSuccessor(board, before, arena, successors, n);
    }
  }

  /** The search starts with the initial node alone on the frontier and nothing expanded. */
  lemma StartSearch(board: Board)
    requires ValidCells(board) && board[3] == Empty
    ensures SearchOk(board, multiset{InitialTile(board)}, {}, [])
  {
    assert ArenaKeys([]) == {};
  }

  /** Dropping a popped node whose key is closed: its board was expanded already. */
  lemma DiscardStep(board: Board, open: multiset<TileState>, closed: set<string>, arena: seq<TileState>, t: TileState)
    requires SearchOk(board, open, closed, arena) && t in open
    requires Key(t.board) in closed
    ensures SearchOk(board, open - multiset{t}, closed, arena)
  {
    Pop(board, arena, open, t);
    ClosedKeyBoard(board, arena, t);
    DiscardCovered(arena, open, t, |arena|);
  }

  /**
    Expanding a popped node that is not a goal and whose key is not closed:
    the node joins the arena, its key the closed list (a key not seen before
    among the finitely many), and the moves of the older entries stay covered.
  */
  lemma ExpandStep(board: Board, open: multiset<TileState>, closed: set<string>, arena: seq<TileState>, t: TileState)
    requires SearchOk(board, open, closed, arena) && t in open
    requires !NoInversion(t.board) && Key(t.board) !in closed
    ensures NodeInvariant(board, t)
    ensures Key(t.board) in AllKeys()
    ensures ArenaOk(board, arena + [t])
    ensures closed + {Key(t.board)} == ArenaKeys(arena + [t])
    ensures ExpandingOk(board, open - multiset{t}, arena + [t], [])
  {
    Pop(board, arena, open, t);
    Expand(board, arena, open - multiset{t}, t);
    ExpandCovered(arena, open, t);
  }

  /** Pushing a successor whose key is not closed. */
  lemma KeepSuccessor(board: Board, open: multiset<TileState>, arena: seq<TileState>, successors: seq<TileState>, i: int)
    requires |arena| > 0 && 0 <= i < |successors|
    requires ExpandingOk(board, open, arena, successors[..i])
    requires forall s :: s in successors ==> NodeInvariant(board, s) && Linked(arena, s, |arena|)
    ensures ExpandingOk(board, open + multiset{successors[i]}, arena, successors[..i + 1])
  {
    assert successors[i] in successors;
    Push(board, arena, open, successors[i]);
    PushCovered(arena, open, open + multiset{successors[i]}, successors, i);
  }

  /** Skipping a successor whose key is closed: its board was expanded already. */
  lemma SkipSuccessor(board: Board, open: multiset<TileState>, arena: seq<TileState>, successors: seq<TileState>, i: int)
    requires |arena| > 0 && 0 <= i < |successors| && ArenaOk(board, arena)
    requires ExpandingOk(board, open, arena, successors[..i])
    requires forall s :: s in successors ==> NodeInvariant(board, s) && Linked(arena, s, |arena|)
    requires Key(successors[i].board) in ArenaKeys(arena)
    ensures ExpandingOk(board, open, arena, successors[..i + 1])
  {
    assert successors[i] in successors;
    ClosedKeyBoard(board, arena, successors[i]);
    PushCovered(arena, open, open, successors, i);
  }

  /** Pushing the successors whose keys are not closed brings back the loop's invariant. */
  lemma AllPushed(board: Board, open: multiset<TileState>, closed: set<string>, arena: seq<TileState>, successors: seq<TileState>)
    requires |arena| > 0 && ArenaOk(board, arena)
    requires closed == ArenaKeys(arena) && closed <= AllKeys()
    requires forall s :: s in successors <==> IsSuccessor(arena[|arena| - 1], |arena| - 1, s)
    requires ExpandingOk(board, open, arena, [])
    ensures SearchOk(board, open + multiset(Unclosed(successors, closed)), closed, arena)
  {
    SuccessorsAreNodes(board, arena, successors);
    PushedCovered(board, open, arena, successors);
    FinishCovered(arena, open + multiset(Unclosed(successors, closed)), successors);
  }

  /** A node taken off the frontier is a node of the search linked into the arena. */
  lemma Popped(board: Board, open: multiset<TileState>, closed: set<string>, arena: seq<TileState>, t: TileState)
    requires SearchOk(board, open, closed, arena) && t in open
    ensures NodeInvariant(board, t) && Linked(arena, t, |arena|)
    ensures LinkedArena(board, arena) && BackLinked(arena)
    ensures Heuristic(t.board) == 0 ==> t.f == t.g
  {
  }

  /**
    When the frontier runs empty, every move out of an expanded board leads
    to an expanded board; with a single empty cell no goal is reachable from
    the input.
  */
  lemma Exhausted(board: Board, closed: set<string>, arena: seq<TileState>)
    requires SearchOk(board, multiset{}, closed, arena)
    ensures |arena| > 0 && ArenaOk(board, arena) && CoveredBelow(arena, multiset{}, |arena|)
    ensures multiset(board)[Empty] == 1 ==>
              forall path :: Reaches(board, path) ==> !NoInversion(path[|path| - 1])
  {
    if multiset(board)[Empty] == 1 {
      assert ExpandedFrom(board, arena);
      forall path | Reaches(board, path)
        ensures !NoInversion(path[|path| - 1])
      {
        ReachedIsExpanded(board, arena, path);
        ExpandedIsNotGoal(board, arena, path[|path| - 1]);
      }
    }
  }

  /** The boards of the arena. */
  ghost function ArenaBoards(arena: seq<TileState>): set<Board>
  {
    set k | 0 <= k < |arena| :: arena[k].board
  }

  /** The boards on the frontier. */
  ghost function OpenBoards(open: multiset<TileState>): set<Board>
  {
    set t | t in open :: t.board
  }

  /** Every move out of the first `n` arena entries leads to an expanded board or a board on the frontier. */
  ghost predicate CoveredBelow(arena: seq<TileState>, open: multiset<TileState>, n: int)
  {
    forall k, d :: 0 <= k < n && k < |arena| && 0 <= arena[k].emptySpace < Size && d in Offsets(arena[k].emptySpace) ==>
      0 <= arena[k].emptySpace + d < Size &&
      Swap(arena[k].board, arena[k].emptySpace, arena[k].emptySpace + d) in ArenaBoards(arena) + OpenBoards(open)
  }

  /** One move: the empty cell trades places with a cell 1, 2 or 3 positions away. */
  ghost predicate IsMove(b: Board, b': Board)
  {
    exists e, d :: 0 <= e < Size && b[e] == Empty && d in Moves && 0 <= e + d < Size && b' == Swap(b, e, e + d)
  }

  /** `path` is a sequence of moves starting at `b`. */
  ghost predicate Reaches(b: Board, path: seq<Board>)
  {
    |path| >= 1 && path[0] == b && forall k :: 0 <= k < |path| - 1 ==> IsMove(path[k], path[k + 1])
  }

  /** A closed key stands for an expanded board (keys of encoded boards are injective). */
  lemma ClosedKeyBoard(board: Board, arena: seq<TileState>, t: TileState)
    requires ArenaOk(board, arena) && ValidCells(t.board)
    requires Key(t.board) in ArenaKeys(arena)
    ensures t.board in ArenaBoards(arena)
  {
    var k :| 0 <= k < |arena| && Key(arena[k].board) == Key(t.board);
    KeyInjective(arena[k].board, t.board);
  }

  lemma OpenBoardsPop(open: multiset<TileState>, t: TileState)
    requires t in open
    ensures OpenBoards(open) == OpenBoards(open - multiset{t}) + {t.board}
  {
    forall b | b in OpenBoards(open)
      ensures b in OpenBoards(open - multiset{t}) + {t.board}
    {
      var u :| u in open && u.board == b;
      if u != t {
        assert u in open - multiset{t};
      }
    }
  }

  lemma OpenBoardsPush(open: multiset<TileState>, t: TileState)
    ensures OpenBoards(open + multiset{t}) == OpenBoards(open) + {t.board}
  {
    forall b | b in OpenBoards(open + multiset{t})
      ensures b in OpenBoards(open) + {t.board}
    {
      var u :| u in open + multiset{t} && u.board == b;
    }
  }

  /** Dropping a frontier node whose board was already expanded keeps the coverage. */
  lemma DiscardCovered(arena: seq<TileState>, open: multiset<TileState>, t: TileState, n: int)
    requires CoveredBelow(arena, open, n) && t in open && t.board in ArenaBoards(arena)
    ensures CoveredBelow(arena, open - multiset{t}, n)
  {
    OpenBoardsPop(open, t);
  }

  /** Moving a popped node from the frontier into the arena keeps the coverage of the older entries. */
  lemma ExpandCovered(arena: seq<TileState>, open: multiset<TileState>, t: TileState)
    requires CoveredBelow(arena, open, |arena|) && t in open
    ensures CoveredBelow(arena + [t], open - multiset{t}, |arena|)
  {
    var a := arena + [t];
    OpenBoardsPop(open, t);
    assert ArenaBoards(a) == ArenaBoards(arena) + {t.board} by {
      forall b | b in ArenaBoards(a)
        ensures b in ArenaBoards(arena) + {t.board}
      {
        var k :| 0 <= k < |a| && a[k].board == b;
        if k < |arena| {
          assert a[k] == arena[k];
        }
      }
      forall b | b in ArenaBoards(arena)
        ensures b in ArenaBoards(a)
      {
        var k :| 0 <= k < |arena| && arena[k].board == b;
        assert a[k] == arena[k];
      }
      assert a[|arena|].board in ArenaBoards(a);
    }
    forall k, d | 0 <= k < |arena| && 0 <= a[k].emptySpace < Size && d in Offsets(a[k].emptySpace)
      ensures 0 <= a[k].emptySpace + d < Size &&
              Swap(a[k].board, a[k].emptySpace, a[k].emptySpace + d) in ArenaBoards(a) + OpenBoards(open - multiset{t})
    {
      assert a[k] == arena[k];
    }
  }

  /** Handling one successor: it is pushed or its board was expanded, and the coverage so far is kept. */
  lemma PushCovered(arena: seq<TileState>, before: multiset<TileState>, after: multiset<TileState>,
                    successors: seq<TileState>, i: int)
    requires |arena| > 0 && 0 <= i < |successors|
    requires CoveredBelow(arena, before, |arena| - 1)
    requires forall u :: u in successors[..i] ==> u.board in ArenaBoards(arena) + OpenBoards(before)
    requires after == before + multiset{successors[i]} || (after == before && successors[i].board in ArenaBoards(arena))
    ensures CoveredBelow(arena, after, |arena| - 1)
    ensures forall u :: u in successors[..i + 1] ==> u.board in ArenaBoards(arena) + OpenBoards(after)
  {
    OpenBoardsPush(before, successors[i]);
    assert successors[..i + 1] == successors[..i] + [successors[i]];
  }

  /** Once every successor of the last arena entry is handled, that entry's moves are covered too. */
  lemma FinishCovered(arena: seq<TileState>, open: multiset<TileState>, successors: seq<TileState>)
    requires |arena| > 0
    requires CoveredBelow(arena, open, |arena| - 1)
    requires forall s :: IsSuccessor(arena[|arena| - 1], |arena| - 1, s) ==> s in successors
    requires forall s :: s in successors ==> s.board in ArenaBoards(arena) + OpenBoards(open)
    ensures CoveredBelow(arena, open, |arena|)
  {
    var last := |arena| - 1;
    forall k, d | 0 <= k < |arena| && 0 <= arena[k].emptySpace < Size && d in Offsets(arena[k].emptySpace)
      ensures 0 <= arena[k].emptySpace + d < Size &&
              Swap(arena[k].board, arena[k].emptySpace, arena[k].emptySpace + d) in ArenaBoards(arena) + OpenBoards(open)
    {
      if k == last {
        LastCovered(arena[last], last, d, successors, ArenaBoards(arena) + OpenBoards(open));
      }
    }
  }

  /** A move out of a node leads to the board of one of its successors. */
  lemma LastCovered(p: TileState, parentIndex: nat, d: int, successors: seq<TileState>, seen: set<Board>)
    requires 0 <= p.emptySpace < Size && d in Offsets(p.emptySpace)
    requires forall s :: IsSuccessor(p, parentIndex, s) ==> s in successors
    requires forall s :: s in successors ==> s.board in seen
    ensures 0 <= p.emptySpace + d < Size && Swap(p.board, p.emptySpace, p.emptySpace + d) in seen
  {
    OffsetInBounds(p.emptySpace, d);
    var s := Successor(p, d, parentIndex);
    assert IsSuccessor(p, parentIndex, s);
  }

  /** An offset the program tries keeps the empty cell on the board. */
  lemma OffsetInBounds(e: int, d: int)
    requires 0 <= e < Size && d in Offsets(e)
    ensures 0 <= e + d < Size
  {
    OffsetsSpec(e);
  }

  /** With one empty cell, a board's empty cell is the one its node records. */
  lemma SingleEmpty(board: Board, t: TileState, e: int)
    requires multiset(board)[Empty] == 1
    requires WellFormed(t) && multiset(t.board) == multiset(board)
    requires 0 <= e < Size && t.board[e] == Empty
    ensures e == t.emptySpace
  {
    if e < t.emptySpace {
      TwoOccurrences(t.board, e, t.emptySpace);
    } else if t.emptySpace < e {
      TwoOccurrences(t.board, t.emptySpace, e);
    }
  }

  /**
    When every move out of an expanded board leads to an expanded board,
    every board reachable from the input by moves has been expanded.
  */
  lemma {:induction false} ReachedIsExpanded(board: Board, arena: seq<TileState>, path: seq<Board>)
    requires ExpandedFrom(board, arena)
    requires CoveredBelow(arena, multiset{}, |arena|)
    requires multiset(board)[Empty] == 1
    requires Reaches(board, path)
    ensures path[|path| - 1] in ArenaBoards(arena)
  {
    if |path| == 1 {
      assert arena[0].board in ArenaBoards(arena);
    } else {
      var prefix := path[..|path| - 1];
      assert Reaches(board, prefix) by {
        forall k | 0 <= k < |prefix| - 1
          ensures IsMove(prefix[k], prefix[k + 1])
        {
          assert prefix[k] == path[k] && prefix[k + 1] == path[k + 1];
        }
      }
      ReachedIsExpanded(board, arena, prefix);
      var q :| 0 <= q < |arena| && arena[q].board == path[|path| - 2];
      assert IsMove(arena[q].board, path[|path| - 1]);
      MoveCovered(board, arena, q, path[|path| - 1]);
    }
  }

  /** The arena starts at the input board and holds well-formed permutations of it. */
  ghost predicate ExpandedFrom(board: Board, arena: seq<TileState>)
  {
    && |arena| > 0 && arena[0].board == board
    && forall k :: 0 <= k < |arena| ==> WellFormed(arena[k]) && multiset(arena[k].board) == multiset(board)
  }

  /** A move out of an expanded board leads to an expanded board, once the frontier is empty. */
  lemma MoveCovered(board: Board, arena: seq<TileState>, q: int, b': Board)
    requires CoveredBelow(arena, multiset{}, |arena|)
    requires 0 <= q < |arena| && WellFormed(arena[q]) && multiset(arena[q].board) == multiset(board)
    requires multiset(board)[Empty] == 1
    requires IsMove(arena[q].board, b')
    ensures b' in ArenaBoards(arena)
  {
    var d := MoveOffset(board, arena[q], b');
    CoveredAt(arena, q, d);
  }

  /** With a single empty cell, a move out of a node's board is one of the offsets tried from its empty cell. */
  lemma MoveOffset(board: Board, t: TileState, b': Board) returns (d: int)
    requires WellFormed(t) && multiset(t.board) == multiset(board) && multiset(board)[Empty] == 1
    requires IsMove(t.board, b')
    ensures d in Offsets(t.emptySpace) && 0 <= t.emptySpace + d < Size
    ensures b' == Swap(t.board, t.emptySpace, t.emptySpace + d)
  {
    var e, d' :| 0 <= e < Size && t.board[e] == Empty && d' in Moves && 0 <= e + d' < Size && b' == Swap(t.board, e, e + d');
    SingleEmpty(board, t, e);
    MoveInOffsets(e, d');
    d := d';
  }

  /** Every in-bounds move is among the offsets the program tries. */
  lemma MoveInOffsets(e: int, d: int)
    requires 0 <= e < Size && d in Moves && 0 <= e + d < Size
    ensures d in Offsets(e)
  {
    OffsetsSpec(e);
  }

  /** One instance of the coverage of an exhausted search. */
  lemma CoveredAt(arena: seq<TileState>, q: int, d: int)
    requires CoveredBelow(arena, multiset{}, |arena|)
    requires 0 <= q < |arena| && 0 <= arena[q].emptySpace < Size && d in Offsets(arena[q].emptySpace)
    ensures 0 <= arena[q].emptySpace + d < Size
    ensures Swap(arena[q].board, arena[q].emptySpace, arena[q].emptySpace + d) in ArenaBoards(arena)
  {
    assert OpenBoards(multiset{}) == {};
  }

  lemma ExpandedIsNotGoal(board: Board, arena: seq<TileState>, b: Board)
    requires ArenaOk(board, arena) && b in ArenaBoards(arena)
    ensures !NoInversion(b)
  {
    var k :| 0 <= k < |arena| && arena[k].board == b;
  }

  /** Taking a node off the frontier: it is a node of the search and the rest of the frontier keeps its invariant. */
  lemma Pop(board: Board, arena: seq<TileState>, open: multiset<TileState>, t: TileState)
    requires FrontierOk(board, arena, open) && t in open
    ensures NodeInvariant(board, t) && Linked(arena, t, |arena|)
    ensures Heuristic(t.board) == 0 ==> t.f == t.g
    ensures FrontierOk(board, arena, open - multiset{t})
  {
  }

  /** Pushing a node of the search linked into the arena keeps the frontier's invariant. */
  lemma Push(board: Board, arena: seq<TileState>, open: multiset<TileState>, t: TileState)
    requires FrontierOk(board, arena, open)
    requires NodeInvariant(board, t) && Linked(arena, t, |arena|)
    ensures FrontierOk(board, arena, open + multiset{t})
  {
  }

  /**
    Expanding a popped node that is not a goal and whose key is not closed:
    the arena keeps its invariants, the closed keys gain exactly that key, and
    the frontier stays linked into the longer arena.
  */
  lemma Expand(board: Board, arena: seq<TileState>, open: multiset<TileState>, t: TileState)
    requires ArenaOk(board, arena) && FrontierOk(board, arena, open)
    requires NodeInvariant(board, t) && Linked(arena, t, |arena|)
    requires |arena| == 0 ==> t.parent.None?
    requires !NoInversion(t.board)
    requires Key(t.board) !in ArenaKeys(arena)
    ensures ArenaOk(board, arena + [t])
    ensures FrontierOk(board, arena + [t], open)
    ensures ArenaKeys(arena + [t]) == ArenaKeys(arena) + {Key(t.board)}
    ensures Key(t.board) in AllKeys()
  {
    Closing(board, arena, t);
    DistinctGoalFree(arena, t);
    forall u | u in open
      ensures NodeInvariant(board, u) && Linked(arena + [t], u, |arena| + 1)
    {
      LinkedGrows(arena, arena + [t], u, |arena|, |arena| + 1);
    }
  }

  /** Appending a non-goal node with a new board keeps the arena's boards distinct and goal-free. */
  lemma DistinctGoalFree(arena: seq<TileState>, t: TileState)
    requires forall i, j :: 0 <= i < j < |arena| ==> arena[i].board != arena[j].board
    requires forall k :: 0 <= k < |arena| ==> !NoInversion(arena[k].board)
    requires forall k :: 0 <= k < |arena| ==> arena[k].board != t.board
    requires !NoInversion(t.board)
    ensures var a := arena + [t];
            && (forall i, j :: 0 <= i < j < |a| ==> a[i].board != a[j].board)
            && (forall k :: 0 <= k < |a| ==> !NoInversion(a[k].board))
  {
    var a := arena + [t];
    forall i, j | 0 <= i < j < |a|
      ensures a[i].board != a[j].board
    {
      assert a[i] == arena[i];
      if j < |arena| {
        assert a[j] == arena[j];
      }
    }
    forall k | 0 <= k < |a|
      ensures !NoInversion(a[k].board)
    {
      if k < |arena| {
        assert a[k] == arena[k];
      }
    }
  }

  /** Expanding a node whose key is not closed keeps the arena linked and adds its key. */
  lemma Closing(board: Board, arena: seq<TileState>, t: TileState)
    requires LinkedArena(board, arena)
    requires NodeInvariant(board, t) && Linked(arena, t, |arena|)
    requires Key(t.board) !in ArenaKeys(arena)
    ensures LinkedArena(board, arena + [t])
    ensures ArenaKeys(arena + [t]) == ArenaKeys(arena) + {Key(t.board)}
    ensures Key(t.board) in AllKeys()
    ensures forall k :: 0 <= k < |arena| ==> arena[k].board != t.board
  {
    ExtendArena(board, arena, t);
    ArenaKeysSnoc(arena, t);
    InAllBoards(t.board);
    forall k | 0 <= k < |arena|
      ensures arena[k].board != t.board
    {
      assert Key(arena[k].board) in ArenaKeys(arena);
    }
  }

  lemma ExtendArena(board: Board, arena: seq<TileState>, t: TileState)
    requires LinkedArena(board, arena)
    requires NodeInvariant(board, t) && Linked(arena, t, |arena|)
    ensures LinkedArena(board, arena + [t])
  {
    var a := arena + [t];
    forall k | 0 <= k < |a|
      ensures NodeInvariant(board, a[k]) && Linked(a, a[k], k)
    {
      if k < |arena| {
        assert a[k] == arena[k];
        LinkedGrows(arena, a, arena[k], k, k);
      } else {
        LinkedGrows(arena, a, t, k, k);
      }
    }
  }

  /** A link into an arena stays valid when the arena grows at its end. */
  lemma LinkedGrows(arena: seq<TileState>, a: seq<TileState>, t: TileState, bound: int, bound': int)
    requires Linked(arena, t, bound)
    requires |arena| <= |a| && arena == a[..|arena|] && bound <= bound' <= |a|
    ensures Linked(a, t, bound')
  {
    if t.parent.Some? {
      assert a[t.parent.value] == arena[t.parent.value];
    }
  }

  lemma ArenaKeysSnoc(arena: seq<TileState>, t: TileState)
    ensures ArenaKeys(arena + [t]) == ArenaKeys(arena) + {Key(t.board)}
  {
    var a := arena + [t];
    forall x | x in ArenaKeys(a)
      ensures x in ArenaKeys(arena) + {Key(t.board)}
    {
      var k :| 0 <= k < |a| && x == Key(a[k].board);
      if k < |arena| {
        assert a[k] == arena[k];
      }
    }
    forall x | x in ArenaKeys(arena)
      ensures x in ArenaKeys(a)
    {
      var k :| 0 <= k < |arena| && x == Key(arena[k].board);
      assert a[k] == arena[k];
    }
    assert Key(a[|arena|].board) in ArenaKeys(a);
  }

  /** The successors of the last arena entry are nodes of the search linked to it. */
  lemma SuccessorsAreNodes(board: Board, arena: seq<TileState>, successors: seq<TileState>)
    requires |arena| > 0 && NodeInvariant(board, arena[|arena| - 1])
    requires forall s :: s in successors ==> IsSuccessor(arena[|arena| - 1], |arena| - 1, s)
    ensures forall s :: s in successors ==> NodeInvariant(board, s) && Linked(arena, s, |arena|)
  {
    var last := |arena| - 1;
    var p := arena[last];
    forall s | s in successors
      ensures NodeInvariant(board, s) && Linked(arena, s, |arena|)
    {
      assert IsSuccessor(p, last, s);
      var d :| d in Offsets(p.emptySpace) && 0 <= p.emptySpace + d < Size && s == Successor(p, d, last);
      SuccessorIsNode(board, p, d, last);
      assert s.parent == Some(last);
    }
  }

  /** A node generated out of a node of the search is a node of the search. */
  lemma SuccessorIsNode(board: Board, p: TileState, d: int, parentIndex: nat)
    requires NodeInvariant(board, p) && 0 <= p.emptySpace + d < Size
    ensures NodeInvariant(board, Successor(p, d, parentIndex))
  {
    SuccessorConserves(p, d, parentIndex);
  }
}
