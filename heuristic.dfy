/**
  The heuristic of the puzzle (`calcHeuristic`) and the goal test (`isGoal`):
  for every white tile, the number of black tiles at lower indices.
*/
module Heuristics {
  import opened Tiles

  /**
    The heuristic as a specification: the contribution of the last cell is the
    number of black cells before it when it is white, as in the program's
    outer/inner loop pair.
  */
  function Heuristic(b: seq<int>): nat
  {
    if b == [] then 0
    else
      var p := b[..|b| - 1];
      Heuristic(p) + (if b[|b| - 1] == White then Count(p, Black) else 0)
  }

  /** No black cell sits at a lower index than a white cell. */
  predicate NoInversion(b: seq<int>)
  {
    forall j, i :: 0 <= j < i < |b| && b[j] == Black ==> b[i] != White
  }

  /** The index pairs (j, i), j < i, of a black cell before a white cell. */
  function Inversions(b: seq<int>): set<(int, int)>
  {
    set j, i | 0 <= j < i < |b| && b[j] == Black && b[i] == White :: (j, i)
  }

  lemma {:induction false} CountZero(s: seq<int>, v: int)
    ensures Count(s, v) == 0 <==> forall j :: 0 <= j < |s| ==> s[j] != v
  {
    if s != [] {
      var p := s[..|s| - 1];
      CountZero(p, v);
      assert forall j :: 0 <= j < |p| ==> p[j] == s[j];
    }
  }

  /** The heuristic is zero exactly on the boards without inversions. */
  lemma {:induction false} HeuristicZeroIff(b: seq<int>)
    ensures Heuristic(b) == 0 <==> NoInversion(b)
  {
    if b != [] {
      var p := b[..|b| - 1];
      HeuristicZeroIff(p);
      CountZero(p, Black);
      assert forall j :: 0 <= j < |p| ==> p[j] == b[j];
      if Heuristic(b) == 0 {
        forall j, i | 0 <= j < i < |b| && b[j] == Black
          ensures b[i] != White
        {
          if i < |b| - 1 {
            assert p[j] == Black;
          }
        }
      }
    }
  }

  /** The heuristic never exceeds the number of index pairs j < i of the board. */
  lemma {:induction false} HeuristicBound(b: seq<int>)
    ensures 2 * Heuristic(b) <= |b| * (|b| - 1)
  {
    if b != [] {
      var p := b[..|b| - 1];
      HeuristicBound(p);
      CountBound(p, Black);
      assert |b| * (|b| - 1) == |p| * (|p| - 1) + 2 * |p|;
    }
  }

  /** On a 7-cell board the heuristic is at most 21. */
  lemma BoardHeuristicBound(b: Board)
    ensures Heuristic(b) <= 21
  {
    HeuristicBound(b);
  }

  /** The set of inversions of a board extended by one cell. */
  lemma InversionsSnoc(p: seq<int>, x: int)
    ensures Inversions(p + [x])
         == Inversions(p) + (if x == White then BlacksBefore(p, |p|, |p|) else {})
  {
    var b := p + [x];
    assert forall k :: 0 <= k < |p| ==> b[k] == p[k];
  }

  /** The pairs (j, n) for the black cells j < m of `p`. */
  function BlacksBefore(p: seq<int>, m: int, n: int): set<(int, int)>
    requires 0 <= m <= |p|
  {
    set j | 0 <= j < m && p[j] == Black :: (j, n)
  }

  lemma {:induction false} BlacksBeforeCard(p: seq<int>, m: int, n: int)
    requires 0 <= m <= |p|
    ensures |BlacksBefore(p, m, n)| == Count(p[..m], Black)
  {
    if m > 0 {
      BlacksBeforeCard(p, m - 1, n);
      assert p[..m][..m - 1] == p[..m - 1];
      if p[m - 1] == Black {
        assert BlacksBefore(p, m, n) == BlacksBefore(p, m - 1, n) + {(m - 1, n)};
      } else {
        assert BlacksBefore(p, m, n) == BlacksBefore(p, m - 1, n);
      }
    } else {
      assert BlacksBefore(p, m, n) == {};
    }
  }

  /** The heuristic is exactly the number of inversions of the board. */
  lemma {:induction false} HeuristicCountsInversions(b: seq<int>)
    ensures Heuristic(b) == |Inversions(b)|
  {
    if b == [] {
      assert Inversions(b) == {};
    } else {
      var p := b[..|b| - 1];
      var x := b[|b| - 1];
      assert b == p + [x];
      HeuristicCountsInversions(p);
      InversionsSnoc(p, x);
      if x == White {
        BlacksBeforeCard(p, |p|, |p|);
        assert p[..|p|] == p;
        assert Inversions(p) !! BlacksBefore(p, |p|, |p|);
      }
    }
  }

  /**
    How the heuristic splits over a concatenation: the two halves' own
    inversions plus one for every black cell of `a` and white cell of `b`.
  */
  lemma {:induction false} HeuristicConcat(a: seq<int>, b: seq<int>)
    ensures Heuristic(a + b) == Heuristic(a) + Heuristic(b) + Count(b, White) * Count(a, Black)
  {
    if b == [] {
      assert a + b == a;
    } else {
      var q, x := b[..|b| - 1], b[|b| - 1];
      HeuristicSnoc(a + q, x);
      assert a + b == (a + q) + [x];
      HeuristicConcat(a, q);
      CountConcat(a, q, Black);
      var ca, wq := Count(a, Black), Count(q, White);
      if x == White {
        assert Count(b, White) == wq + 1;
        MulSucc(wq, ca);
      } else {
        assert Count(b, White) == wq;
      }
    }
  }

  /** The heuristic of a board extended by one cell. */
  lemma HeuristicSnoc(p: seq<int>, x: int)
    ensures Heuristic(p + [x]) == Heuristic(p) + (if x == White then Count(p, Black) else 0)
  {
    assert (p + [x])[..|p|] == p;
  }

  lemma MulSucc(a: int, b: int)
    ensures (a + 1) * b == a * b + b
  {
  }

  /** The heuristic of a board with one cell put in front. */
  lemma HeuristicCons(u: int, m: seq<int>)
    ensures Heuristic([u] + m) == Heuristic(m) + (if u == Black then Count(m, White) else 0)
  {
    HeuristicConcat([u], m);
    assert [u][..0] == [];
    var cu := if u == Black then 1 else 0;
    assert Heuristic([u]) == 0 && Count([u], Black) == cu;
    assert Count(m, White) * cu == (if u == Black then Count(m, White) else 0);
  }

  /** The count of a board with one cell put in front. */
  lemma CountCons(u: int, m: seq<int>, c: int)
    ensures Count([u] + m, c) == (if u == c then 1 else 0) + Count(m, c)
  {
    CountConcat([u], m, c);
    assert [u][..0] == [];
  }

  /** Heuristic of a segment u, m..., v in closed form. */
  lemma Segment(u: int, m: seq<int>, v: int)
    ensures Heuristic([u] + m + [v])
         == Heuristic(m)
          + (if u == Black then Count(m, White) else 0)
          + (if v == White then (if u == Black then 1 else 0) + Count(m, Black) else 0)
  {
    HeuristicCons(u, m);
    HeuristicSnoc([u] + m, v);
    CountCons(u, m, Black);
  }

  /** Heuristic of a board split in three parts. */
  lemma Splice(pre: seq<int>, x: seq<int>, post: seq<int>)
    ensures Heuristic(pre + x + post)
         == Heuristic(pre) + Heuristic(x) + Heuristic(post)
          + Count(post, White) * Count(x, Black)
          + Count(x + post, White) * Count(pre, Black)
  {
    assert pre + x + post == pre + (x + post);
    HeuristicConcat(pre, x + post);
    HeuristicConcat(x, post);
  }

  /** Two segments with the same counts of white and black cells, differing in order only. */
  lemma SegmentCounts(u: int, m: seq<int>, v: int, c: int)
    ensures Count([u] + m + [v], c) == Count([v] + m + [u], c)
  {
    CountConcat([u] + m, [v], c);
    CountConcat([u], m, c);
    CountConcat([v] + m, [u], c);
    CountConcat([v], m, c);
    assert [u][..0] == [] && [v][..0] == [];
  }

  /** Reordering a segment with its counts kept changes the heuristic only inside it. */
  lemma ReorderSegment(pre: seq<int>, u: int, m: seq<int>, v: int, post: seq<int>)
    ensures Heuristic(pre + ([v] + m + [u]) + post) - Heuristic(pre + ([u] + m + [v]) + post)
         == Heuristic([v] + m + [u]) - Heuristic([u] + m + [v])
  {
    var x, x' := [u] + m + [v], [v] + m + [u];
    Splice(pre, x, post);
    Splice(pre, x', post);
    SegmentCounts(u, m, v, Black);
    SegmentCounts(u, m, v, White);
    CountConcat(x, post, White);
    CountConcat(x', post, White);
    assert Count(x + post, White) == Count(x' + post, White);
  }

  /**
    Moving a tile into the empty cell across the k cells between them changes
    the heuristic by at most k (a property derived from the definition).
  */
  lemma SwapWithEmptyChange(b: seq<int>, e: int, t: int)
    requires 0 <= e < |b| && 0 <= t < |b| && e != t
    requires b[e] == Empty
    ensures var k := if e < t then t - e - 1 else e - t - 1;
            var b' := b[e := b[t]][t := b[e]];
            Heuristic(b') <= Heuristic(b) + k && Heuristic(b) <= Heuristic(b') + k
  {
    var lo, hi := if e < t then e else t, if e < t then t else e;
    var b' := b[e := b[t]][t := b[e]];
    var pre, mid, post := b[..lo], b[lo + 1..hi], b[hi + 1..];
    assert b == pre + ([b[lo]] + mid + [b[hi]]) + post;
    assert b' == pre + ([b[hi]] + mid + [b[lo]]) + post;
    ReorderSegment(pre, b[lo], mid, b[hi], post);
    Segment(b[lo], mid, b[hi]);
    Segment(b[hi], mid, b[lo]);
    CountBound(mid, White);
    CountBound(mid, Black);
  }

  /** `calcHeuristic`: the program's nested counting loops. */
  method CalcHeuristic(board: Board) returns (heuristic: int)
    ensures heuristic == Heuristic(board)
    ensures heuristic == |Inversions(board)|
    ensures 0 <= heuristic <= 21
  {
    heuristic := 0;
    for i := 0 to Size
      invariant heuristic == Heuristic(board[..i])
    {
      assert board[..i + 1][..i] == board[..i];
      if board[i] == White {
        for j := 0 to i
          invariant heuristic == Heuristic(board[..i]) + Count(board[..j], Black)
        {
          assert board[..j + 1][..j] == board[..j];
          if board[j] == Black {
            heuristic := heuristic + 1;
          }
        }
        assert board[..i][..i] == board[..i];
      }
    }
    assert board[..Size] == board;
    HeuristicCountsInversions(board);
    BoardHeuristicBound(board);
  }

  /** `isGoal`: the goal is reached when no black tile precedes a white tile. */
  method IsGoal(board: Board) returns (goal: bool)
    ensures goal <==> Heuristic(board) == 0
    ensures goal <==> NoInversion(board)
  {
    var h := CalcHeuristic(board);
    goal := h == 0;
    HeuristicZeroIff(board);
  }
}
