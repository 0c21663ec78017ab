/**
  The canonical key of a board (`stringTileBoard`): the decimal text of each
  cell, concatenated.
*/
module BoardKey {
  import opened Tiles

  /** The character of a decimal digit. */
  function DigitChar(d: int): char
    requires 0 <= d <= 9
  {
    ('0' as int + d) as char
  }

  /** Decimal text of a natural number, most significant digit first. */
  function NatToString(n: nat): string
    decreases n
  {
    if n < 10 then [DigitChar(n)] else NatToString(n / 10) + [DigitChar(n % 10)]
  }

  /** C++ `to_string` of an `int`: a minus sign before the digits of a negative value. */
  function IntToString(n: int): string
  {
    if n < 0 then "-" + NatToString(-n) else NatToString(n)
  }

  /** The key of a board: the text of its cells, left to right. */
  function Key(b: seq<int>): string
  {
    if b == [] then "" else Key(b[..|b| - 1]) + IntToString(b[|b| - 1])
  }

  /** On encoded cells every cell contributes exactly its one digit. */
  lemma {:induction false} KeyOfValidCells(b: seq<int>)
    requires ValidCells(b)
    ensures |Key(b)| == |b|
    ensures forall i :: 0 <= i < |b| ==> Key(b)[i] == DigitChar(b[i])
  {
    if b != [] {
      var p := b[..|b| - 1];
      assert ValidCells(p) by {
        assert forall i :: 0 <= i < |p| ==> p[i] == b[i];
      }
      KeyOfValidCells(p);
    }
  }

  /** Equal keys mean equal boards, for boards whose cells are encoded tiles. */
  lemma KeyInjective(a: seq<int>, b: seq<int>)
    requires ValidCells(a) && ValidCells(b)
    requires Key(a) == Key(b)
    ensures a == b
  {
    KeyOfValidCells(a);
    KeyOfValidCells(b);
    forall i | 0 <= i < |a|
      ensures a[i] == b[i]
    {
      assert DigitChar(a[i]) == Key(a)[i] == DigitChar(b[i]);
    }
  }

  /** `stringTileBoard`: appends the text of each of the seven cells. */
  method StringTileBoard(currentTile: TileState) returns (stringBoard: string)
    ensures stringBoard == Key(currentTile.board)
    ensures ValidCells(currentTile.board) ==>
              |stringBoard| == Size &&
              forall i :: 0 <= i < Size ==> stringBoard[i] == DigitChar(currentTile.board[i])
  {
    stringBoard := "";
    for i := 0 to Size
      invariant stringBoard == Key(currentTile.board[..i])
    {
      assert currentTile.board[..i + 1][..i] == currentTile.board[..i];
      stringBoard := stringBoard + IntToString(currentTile.board[i]);
    }
    assert currentTile.board[..Size] == currentTile.board;
    if ValidCells(currentTile.board) {
      KeyOfValidCells(currentTile.board);
    }
  }
}
