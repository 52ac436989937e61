/** The board object of the classic game: a ROWS x COLS array of cells that
    `DropPiece` updates in place. Several objects may wrap the same array,
    as the game does when it hands its board to a fresh logic object. */
module Logic {
  import opened Rules

  /** The value held by a board array. */
  function Cells(b: array2<int>): (g: Grid)
    requires b.Length0 == ROWS && b.Length1 == COLS
    reads b
    ensures forall r, c :: 0 <= r < ROWS && 0 <= c < COLS ==> g[r][c] == b[r, c]
  {
    seq(ROWS, r requires 0 <= r < ROWS reads b =>
      seq(COLS, c requires 0 <= c < COLS reads b => b[r, c]))
  }

  /** The horizontal part of the win scan: columns 0..COLS-4 outside, rows inside. */
  method ScanHorizontal(b: Grid, piece: int) returns (found: bool)
    ensures found <==> exists c, r | 0 <= c < COLS - 3 && 0 <= r < ROWS :: HorizontalAt(b, piece, r, c)
  {
    for c := 0 to COLS - 3
      invariant forall c', r :: 0 <= c' < c && 0 <= r < ROWS ==> !HorizontalAt(b, piece, r, c')
    {
      for r := 0 to ROWS
        invariant forall r' :: 0 <= r' < r ==> !HorizontalAt(b, piece, r', c)
      {
        if b[r][c] == piece && b[r][c + 1] == piece && b[r][c + 2] == piece && b[r][c + 3] == piece {
          assert HorizontalAt(b, piece, r, c);
          return true;
        }
      }
    }
    return false;
  }

  /** The vertical part: every column outside, rows 0..ROWS-4 inside. */
  method ScanVertical(b: Grid, piece: int) returns (found: bool)
    ensures found <==> exists c, r | 0 <= c < COLS && 0 <= r < ROWS - 3 :: VerticalAt(b, piece, r, c)
  {
    for c := 0 to COLS
      invariant forall c', r :: 0 <= c' < c && 0 <= r < ROWS - 3 ==> !VerticalAt(b, piece, r, c')
    {
      for r := 0 to ROWS - 3
        invariant forall r' :: 0 <= r' < r ==> !VerticalAt(b, piece, r', c)
      {
        if b[r][c] == piece && b[r + 1][c] == piece && b[r + 2][c] == piece && b[r + 3][c] == piece {
          assert VerticalAt(b, piece, r, c);
          return true;
        }
      }
    }
    return false;
  }

  /** Windows going down to the right, from rows 0..ROWS-4. */
  method ScanDownRight(b: Grid, piece: int) returns (found: bool)
    ensures found <==> exists c, r | 0 <= c < COLS - 3 && 0 <= r < ROWS - 3 :: DownRightAt(b, piece, r, c)
  {
    for c := 0 to COLS - 3
      invariant forall c', r :: 0 <= c' < c && 0 <= r < ROWS - 3 ==> !DownRightAt(b, piece, r, c')
    {
      for r := 0 to ROWS - 3
        invariant forall r' :: 0 <= r' < r ==> !DownRightAt(b, piece, r', c)
      {
        if b[r][c] == piece && b[r + 1][c + 1] == piece && b[r + 2][c + 2] == piece && b[r + 3][c + 3] == piece {
          assert DownRightAt(b, piece, r, c);
          return true;
        }
      }
    }
    return false;
  }

  /** Windows going up to the right, from rows 3..ROWS-1. */
  method ScanUpRight(b: Grid, piece: int) returns (found: bool)
    ensures found <==> exists c, r | 0 <= c < COLS - 3 && 3 <= r < ROWS :: UpRightAt(b, piece, r, c)
  {
    for c := 0 to COLS - 3
      invariant forall c', r :: 0 <= c' < c && 3 <= r < ROWS ==> !UpRightAt(b, piece, r, c')
    {
      for r := 3 to ROWS
        invariant forall r' :: 3 <= r' < r ==> !UpRightAt(b, piece, r', c)
      {
        if b[r][c] == piece && b[r - 1][c + 1] == piece && b[r - 2][c + 2] == piece && b[r - 3][c + 3] == piece {
          assert UpRightAt(b, piece, r, c);
          return true;
        }
      }
    }
    return false;
  }

  class Connect4Logic {
    var board: array2<int>

    ghost predicate Valid()
      reads this
    {
      board.Length0 == ROWS && board.Length1 == COLS
    }

    /** The current board as a value. */
    function Grid(): Rules.Grid
      requires Valid()
      reads this, board
    {
      Cells(board)
    }

    /** Wraps the given board (sharing it, not copying it), or starts from an
        empty board when none is given. */
    constructor (given: Option<array2<int>>)
      requires given.Some? ==> given.value.Length0 == ROWS && given.value.Length1 == COLS
      ensures Valid()
      ensures given.Some? ==> board == given.value
      ensures given.None? ==> fresh(board) && Grid() == EmptyGrid()
    {
      var b: array2<int>;
      match given {
        case Some(shared) =>
          b := shared;
        case None =>
          b := new int[ROWS, COLS]((r, c) => 0);
          SameCells(Cells(b), EmptyGrid());
      }
      board := b;
    }

    /** The top cell of the column is empty, so a piece dropped there lands. */
    predicate IsValid(col: int): (valid: bool)
      requires Valid() && 0 <= col < COLS
      reads this, board
      ensures valid <==> board[0, col] == 0
      ensures valid ==> LandingRow(Grid(), col).Some?
    {
      ValidIffDropSucceeds(Grid(), col);
      Rules.IsValid(Grid(), col)
    }

    /** Looks for four of `piece` in a row, a column or a diagonal, scanning
        the windows in the game's order and stopping at the first one found. */
    method CheckWin(piece: int) returns (won: bool)
      requires Valid()
      ensures won == Rules.CheckWin(Grid(), piece)
    {
      var b := Grid();
      won := ScanHorizontal(b, piece);
      if won {
        return;
      }
      won := ScanVertical(b, piece);
      if won {
        return;
      }
      won := ScanDownRight(b, piece);
      if won {
        return;
      }
      won := ScanUpRight(b, piece);
    }

    /** Scans the column upwards from the floor and puts the piece into the
        first empty cell, returning its row; a full column is left alone and
        None is returned. */
    method DropPiece(col: int, piece: int) returns (row: Option<int>)
      requires Valid() && 0 <= col < COLS
      modifies board
      ensures Valid()
      ensures row == LandingRow(old(Grid()), col)
      ensures Grid() == Drop(old(Grid()), col, piece)
    {
      ghost var g := Grid();
      LandingRowLowest(g, col);
      DropCells(g, col, piece);
      for r := ROWS downto 0
        invariant forall r' :: r <= r' < ROWS ==> board[r', col] != 0
        invariant Grid() == g
      {
        if board[r, col] == 0 {
          board[r, col] := piece;
          assert LandingRow(g, col) == Some(r);
          SameCells(Grid(), Drop(g, col, piece));
          return Some(r);
        }
      }
      SameCells(Grid(), Drop(g, col, piece));
      return None;
    }
  }
}
