/** Rules of the classic four-in-a-row game, stated on values.

    The board has ROWS rows and COLS columns of integer cells: 0 is an empty
    cell, 1 a piece of the first player and 2 a piece of the computer (or of
    the second player). Row 0 is the top row and row ROWS - 1 the floor, so a
    dropped piece falls towards larger row indices. */
module Rules {

  datatype Option<T> = None | Some(value: T)

  const ROWS := 6
  const COLS := 7

  /** A board value: ROWS rows of COLS cells each. */
  type Grid = g: seq<seq<int>> | |g| == ROWS && forall r :: 0 <= r < |g| ==> |g[r]| == COLS
    witness seq(6, _ => seq(7, _ => 0))

  /** The board a new game starts from. */
  function EmptyGrid(): (g: Grid)
    ensures forall r, c :: 0 <= r < ROWS && 0 <= c < COLS ==> g[r][c] == 0
  {
    seq(ROWS, _ => seq(COLS, _ => 0))
  }

  /** Two boards with the same cells are the same board. */
  lemma SameCells(g: Grid, h: Grid)
    requires forall r, c :: 0 <= r < ROWS && 0 <= c < COLS ==> g[r][c] == h[r][c]
    ensures g == h
  {
    forall r | 0 <= r < ROWS ensures g[r] == h[r] {
      assert forall c :: 0 <= c < COLS ==> g[r][c] == h[r][c];
    }
  }

  /** A column can be played when its top cell is empty. */
  predicate IsValid(g: Grid, col: int)
    requires 0 <= col < COLS
  {
    g[0][col] == 0
  }

  /** Where a piece dropped into `col` comes to rest: the empty cell of that
      column with the largest row index, or None when the column has none. */
  function LandingRow(g: Grid, col: int): (row: Option<int>)
    requires 0 <= col < COLS
    ensures row.Some? ==> 0 <= row.value < ROWS
  {
    ScanUp(g, col, ROWS - 1)
  }

  /** The first empty cell of column `col` met when scanning rows r, r-1, ..., 0. */
  function ScanUp(g: Grid, col: int, r: int): (row: Option<int>)
    requires 0 <= col < COLS && -1 <= r < ROWS
    ensures row.Some? ==> 0 <= row.value <= r
    decreases r + 1
  {
    if r < 0 then None
    else if g[r][col] == 0 then Some(r)
    else ScanUp(g, col, r - 1)
  }

  lemma {:induction false} ScanUpLowest(g: Grid, col: int, r: int)
    requires 0 <= col < COLS && -1 <= r < ROWS
    ensures var row := ScanUp(g, col, r);
      (row.Some? ==> g[row.value][col] == 0 && forall r' :: row.value < r' <= r ==> g[r'][col] != 0) &&
      (row.None? <==> forall r' :: 0 <= r' <= r ==> g[r'][col] != 0)
    decreases r + 1
  {
    if r >= 0 && g[r][col] != 0 {
      ScanUpLowest(g, col, r - 1);
    }
  }

  /** The landing row is the lowest empty cell of the column: it is empty,
      every cell below it is occupied, and there is none exactly when the
      whole column is occupied. */
  lemma LandingRowLowest(g: Grid, col: int)
    requires 0 <= col < COLS
    ensures var row := LandingRow(g, col);
      (row.Some? ==> g[row.value][col] == 0 && forall r :: row.value < r < ROWS ==> g[r][col] != 0) &&
      (row.None? <==> forall r :: 0 <= r < ROWS ==> g[r][col] != 0)
  {
    ScanUpLowest(g, col, ROWS - 1);
  }

  /** The board after dropping `piece` into `col`: the landing row of that
      column receives the piece; a full column leaves the board as it was. */
  function Drop(g: Grid, col: int, piece: int): Grid
    requires 0 <= col < COLS
  {
    match LandingRow(g, col)
    case None => g
    case Some(r) => g[r := g[r][col := piece]]
  }

  /** A drop writes `piece` into the landing cell and changes no other cell. */
  lemma DropCells(g: Grid, col: int, piece: int)
    requires 0 <= col < COLS
    ensures var h := Drop(g, col, piece);
      (LandingRow(g, col).None? ==> h == g) &&
      (LandingRow(g, col).Some? ==> h[LandingRow(g, col).value][col] == piece) &&
      (forall r, c :: 0 <= r < ROWS && 0 <= c < COLS && (LandingRow(g, col) != Some(r) || c != col) ==>
         h[r][c] == g[r][c])
  {
  }

  /** Gravity: no occupied cell has an empty cell directly below it. */
  predicate Settled(g: Grid) {
    forall r, c {:trigger g[r][c]} :: 0 <= r < ROWS - 1 && 0 <= c < COLS && g[r][c] != 0 ==> g[r + 1][c] != 0
  }

  /** In a settled board every cell below an occupied cell is occupied. */
  lemma {:induction false} FilledBelow(g: Grid, c: int, a: int, b: int)
    requires Settled(g) && 0 <= c < COLS && 0 <= a <= b < ROWS && g[a][c] != 0
    ensures g[b][c] != 0
    decreases b - a
  {
    if a < b {
      assert g[a + 1][c] != 0;
      FilledBelow(g, c, a + 1, b);
    }
  }

  /** A column whose top cell is empty always accepts a piece; on a settled
      board the converse holds too, so `IsValid` is exactly "the drop succeeds". */
  lemma ValidIffDropSucceeds(g: Grid, col: int)
    requires 0 <= col < COLS
    ensures IsValid(g, col) ==> LandingRow(g, col).Some?
    ensures Settled(g) ==> (IsValid(g, col) <==> LandingRow(g, col).Some?)
  {
    LandingRowLowest(g, col);
    if Settled(g) && LandingRow(g, col).Some? && !IsValid(g, col) {
      FilledBelow(g, col, 0, LandingRow(g, col).value);
      assert false;
    }
  }

  /** Dropping a real piece keeps a settled board settled. */
  lemma DropKeepsSettled(g: Grid, col: int, piece: int)
    requires 0 <= col < COLS && piece != 0 && Settled(g)
    ensures Settled(Drop(g, col, piece))
  {
    var h := Drop(g, col, piece);
    LandingRowLowest(g, col);
    DropCells(g, col, piece);
    forall r, c {:trigger h[r][c]} | 0 <= r < ROWS - 1 && 0 <= c < COLS && h[r][c] != 0
      ensures h[r + 1][c] != 0
    {
      if LandingRow(g, col) == Some(r + 1) && c == col {
      } else if LandingRow(g, col) == Some(r) && c == col {
      } else {
        assert g[r][c] != 0;
      }
    }
  }

  /** A drop never changes an occupied cell. */
  lemma DropKeepsOccupied(g: Grid, col: int, piece: int, r: int, c: int)
    requires 0 <= col < COLS && 0 <= r < ROWS && 0 <= c < COLS && g[r][c] != 0
    ensures Drop(g, col, piece)[r][c] == g[r][c]
  {
    LandingRowLowest(g, col);
    DropCells(g, col, piece);
  }

  // ---------------------------------------------------------------------------
  // Wins

  /** The four window tests of the game's win scan, one per orientation. */
  predicate HorizontalAt(g: Grid, piece: int, r: int, c: int)
    requires 0 <= r < ROWS && 0 <= c < COLS - 3
  {
    g[r][c] == piece && g[r][c + 1] == piece && g[r][c + 2] == piece && g[r][c + 3] == piece
  }

  predicate VerticalAt(g: Grid, piece: int, r: int, c: int)
    requires 0 <= r < ROWS - 3 && 0 <= c < COLS
  {
    g[r][c] == piece && g[r + 1][c] == piece && g[r + 2][c] == piece && g[r + 3][c] == piece
  }

  predicate DownRightAt(g: Grid, piece: int, r: int, c: int)
    requires 0 <= r < ROWS - 3 && 0 <= c < COLS - 3
  {
    g[r][c] == piece && g[r + 1][c + 1] == piece && g[r + 2][c + 2] == piece && g[r + 3][c + 3] == piece
  }

  predicate UpRightAt(g: Grid, piece: int, r: int, c: int)
    requires 3 <= r < ROWS && 0 <= c < COLS - 3
  {
    g[r][c] == piece && g[r - 1][c + 1] == piece && g[r - 2][c + 2] == piece && g[r - 3][c + 3] == piece
  }

  /** The win test as the game scans it: horizontal windows starting in
      columns 0..COLS-4, vertical windows starting in rows 0..ROWS-4, windows
      going down-right, and windows going up-right from rows 3..ROWS-1. */
  predicate CheckWin(g: Grid, piece: int) {
    (exists c, r | 0 <= c < COLS - 3 && 0 <= r < ROWS :: HorizontalAt(g, piece, r, c)) ||
    (exists c, r | 0 <= c < COLS && 0 <= r < ROWS - 3 :: VerticalAt(g, piece, r, c)) ||
    (exists c, r | 0 <= c < COLS - 3 && 0 <= r < ROWS - 3 :: DownRightAt(g, piece, r, c)) ||
    (exists c, r | 0 <= c < COLS - 3 && 3 <= r < ROWS :: UpRightAt(g, piece, r, c))
  }

  /** The four directions a line of four can run in (row 0 is the top). */
  datatype Direction = Right | Down | DownRight | UpRight {
    function RowStep(): int {
      match this
      case Right => 0
      case Down => 1
      case DownRight => 1
      case UpRight => -1
    }
    function ColStep(): int {
      match this
      case Right => 1
      case Down => 0
      case DownRight => 1
      case UpRight => 1
    }
  }

  predicate InGrid(r: int, c: int) {
    0 <= r < ROWS && 0 <= c < COLS
  }

  /** Four cells holding `piece`, starting at (r, c) and stepping in direction d,
      all of them on the board. */
  predicate RunAt(g: Grid, piece: int, r: int, c: int, d: Direction) {
    var dr, dc := d.RowStep(), d.ColStep();
    InGrid(r, c) && InGrid(r + 3 * dr, c + 3 * dc) &&
    g[r][c] == piece && g[r + dr][c + dc] == piece &&
    g[r + 2 * dr][c + 2 * dc] == piece && g[r + 3 * dr][c + 3 * dc] == piece
  }

  /** Reference definition of a win: four in a line somewhere on the board. */
  ghost predicate HasFour(g: Grid, piece: int) {
    exists r, c, d :: RunAt(g, piece, r, c, d)
  }

  /** The game's scan finds a win exactly when the board holds four in a line. */
  lemma CheckWinIffFour(g: Grid, piece: int)
    ensures CheckWin(g, piece) <==> HasFour(g, piece)
  {
    if CheckWin(g, piece) {
      ScanFindsFour(g, piece);
    }
    if HasFour(g, piece) {
      FourIsFound(g, piece);
    }
  }

  /** A window the scan accepts is a line of four. */
  lemma ScanFindsFour(g: Grid, piece: int)
    requires CheckWin(g, piece)
    ensures HasFour(g, piece)
  {
    if exists c, r | 0 <= c < COLS - 3 && 0 <= r < ROWS :: HorizontalAt(g, piece, r, c) {
      var c, r :| 0 <= c < COLS - 3 && 0 <= r < ROWS && HorizontalAt(g, piece, r, c);
      assert RunAt(g, piece, r, c, Right);
    } else if exists c, r | 0 <= c < COLS && 0 <= r < ROWS - 3 :: VerticalAt(g, piece, r, c) {
      var c, r :| 0 <= c < COLS && 0 <= r < ROWS - 3 && VerticalAt(g, piece, r, c);
      assert RunAt(g, piece, r, c, Down);
    } else if exists c, r | 0 <= c < COLS - 3 && 0 <= r < ROWS - 3 :: DownRightAt(g, piece, r, c) {
      var c, r :| 0 <= c < COLS - 3 && 0 <= r < ROWS - 3 && DownRightAt(g, piece, r, c);
      assert RunAt(g, piece, r, c, DownRight);
    } else {
      var c, r :| 0 <= c < COLS - 3 && 3 <= r < ROWS && UpRightAt(g, piece, r, c);
      assert RunAt(g, piece, r, c, UpRight);
    }
  }

  /** Every line of four lies in a window the scan visits. */
  lemma FourIsFound(g: Grid, piece: int)
    requires HasFour(g, piece)
    ensures CheckWin(g, piece)
  {
    var r, c, d :| RunAt(g, piece, r, c, d);
    match d
    case Right => assert HorizontalAt(g, piece, r, c);
    case Down => assert VerticalAt(g, piece, r, c);
    case DownRight => assert DownRightAt(g, piece, r, c);
    case UpRight => assert UpRightAt(g, piece, r, c);
  }

  /** Once a player has four in a line, any later drop keeps the win: a drop
      only fills an empty cell. */
  lemma WinPersists(g: Grid, col: int, q: int, piece: int)
    requires 0 <= col < COLS && piece != 0 && CheckWin(g, piece)
    ensures CheckWin(Drop(g, col, q), piece)
  {
    var h := Drop(g, col, q);
    CheckWinIffFour(g, piece);
    var r, c, d :| RunAt(g, piece, r, c, d);
    var dr, dc := d.RowStep(), d.ColStep();
    DropKeepsOccupied(g, col, q, r, c);
    DropKeepsOccupied(g, col, q, r + dr, c + dc);
    DropKeepsOccupied(g, col, q, r + 2 * dr, c + 2 * dc);
    DropKeepsOccupied(g, col, q, r + 3 * dr, c + 3 * dc);
    assert RunAt(h, piece, r, c, d);
    CheckWinIffFour(h, piece);
  }

  // ---------------------------------------------------------------------------
  // Occupied cells

  function CountOccupied(row: seq<int>): (n: nat)
    ensures n <= |row|
  {
    if row == [] then 0 else (if row[0] != 0 then 1 else 0) + CountOccupied(row[1..])
  }

  /** Number of occupied cells in the first n rows. */
  function OccupiedRows(g: Grid, n: int): nat
    requires 0 <= n <= ROWS
  {
    if n == 0 then 0 else OccupiedRows(g, n - 1) + CountOccupied(g[n - 1])
  }

  function Occupied(g: Grid): nat {
    OccupiedRows(g, ROWS)
  }

  lemma {:induction false} CountOccupiedFill(row: seq<int>, i: int, piece: int)
    requires 0 <= i < |row| && row[i] == 0 && piece != 0
    ensures CountOccupied(row[i := piece]) == CountOccupied(row) + 1
  {
    if i > 0 {
      assert row[i := piece][1..] == row[1..][i - 1 := piece];
      CountOccupiedFill(row[1..], i - 1, piece);
    } else {
      assert row[i := piece][1..] == row[1..];
    }
  }

  lemma {:induction false} OccupiedRowsFill(g: Grid, h: Grid, k: int, n: int)
    requires 0 <= k < ROWS && 0 <= n <= ROWS
    requires CountOccupied(h[k]) == CountOccupied(g[k]) + 1
    requires forall r :: 0 <= r < ROWS && r != k ==> h[r] == g[r]
    ensures OccupiedRows(h, n) == OccupiedRows(g, n) + (if k < n then 1 else 0)
  {
    if n > 0 {
      OccupiedRowsFill(g, h, k, n - 1);
    }
  }

  /** An accepted drop of a real piece occupies exactly one more cell; a
      rejected drop occupies none. */
  lemma DropCountsOne(g: Grid, col: int, piece: int)
    requires 0 <= col < COLS && piece != 0
    ensures Occupied(Drop(g, col, piece)) ==
              Occupied(g) + (if LandingRow(g, col).Some? then 1 else 0)
  {
    match LandingRow(g, col)
    case None =>
    case Some(r) =>
      LandingRowLowest(g, col);
      var h := Drop(g, col, piece);
      assert h[r] == g[r][col := piece];
      CountOccupiedFill(g[r], col, piece);
      OccupiedRowsFill(g, h, r, ROWS);
  }
}
