/** Static evaluation of a position for the computer opponent: every window
    of four cells in the four orientations is scored for one player, and
    pieces in the centre column earn a bonus. */
module Evaluation {
  import opened Rules

  /** How often `x` occurs in `s`. */
  function Count(s: seq<int>, x: int): (n: nat)
    ensures n <= |s|
  {
    if s == [] then 0 else (if s[0] == x then 1 else 0) + Count(s[1..], x)
  }

  /** The other player's piece: 1 for piece 2, and 2 for anything else. */
  function Opponent(piece: int): int {
    if piece == 2 then 1 else 2
  }

  /** Score of one window of four cells for `piece`: 100 for four own pieces,
      5 for three own and one empty, 2 for two own and two empty, and 4 taken
      off when the opponent has three and the fourth cell is empty. */
  function EvaluateWindow(window: seq<int>, piece: int): (score: int)
    requires |window| == 4
    ensures -4 <= score <= 100
  {
    var own := Count(window, piece);
    var empty := Count(window, 0);
    var bonus :=
      if own == 4 then 100
      else if own == 3 && empty == 1 then 5
      else if own == 2 && empty == 2 then 2
      else 0;
    bonus - (if Count(window, Opponent(piece)) == 3 && empty == 1 then 4 else 0)
  }

  /** Counting in a window of four, cell by cell. */
  lemma CountFour(w: seq<int>, x: int)
    requires |w| == 4
    ensures Count(w, x) == (if w[0] == x then 1 else 0) + (if w[1] == x then 1 else 0) +
                           (if w[2] == x then 1 else 0) + (if w[3] == x then 1 else 0)
  {
    var t1 := w[1..];
    var t2 := t1[1..];
    var t3 := t2[1..];
    assert t1[0] == w[1] && t2[0] == w[2] && t3[0] == w[3] && t3[1..] == [];
    assert Count(t3, x) == (if w[3] == x then 1 else 0);
    assert Count(t2, x) == (if w[2] == x then 1 else 0) + Count(t3, x);
    assert Count(t1, x) == (if w[1] == x then 1 else 0) + Count(t2, x);
  }

  /** A window scores 100 exactly when all four cells hold `piece`, and
      scores below zero exactly when the opponent has three cells and the
      fourth is empty. */
  lemma WindowScoreMeaning(window: seq<int>, piece: int)
    requires |window| == 4
    ensures EvaluateWindow(window, piece) == 100 <==> forall i :: 0 <= i < 4 ==> window[i] == piece
    ensures EvaluateWindow(window, piece) < 0 <==> Count(window, Opponent(piece)) == 3 && Count(window, 0) == 1
  {
    CountFour(window, piece);
    CountFour(window, 0);
    CountFour(window, Opponent(piece));
  }

  /** The four families of windows, in the order the evaluation visits them. */
  datatype Orientation = Horizontal | Vertical | DownRightDiagonal | UpRightDiagonal {
    /** Extent of the outer loop: rows, except for vertical windows (columns). */
    function Outer(): int {
      match this
      case Horizontal => ROWS
      case Vertical => COLS
      case DownRightDiagonal => ROWS - 3
      case UpRightDiagonal => ROWS - 3
    }
    /** Extent of the inner loop. */
    function Inner(): int {
      match this
      case Horizontal => COLS - 3
      case Vertical => ROWS - 3
      case DownRightDiagonal => COLS - 3
      case UpRightDiagonal => COLS - 3
    }
  }

  /** The column `c` read from top to bottom. */
  function ColumnOf(g: Grid, c: int): (column: seq<int>)
    requires 0 <= c < COLS
    ensures |column| == ROWS
  {
    seq(ROWS, r requires 0 <= r < ROWS => g[r][c])
  }

  /** The window visited at outer index i and inner index j. Horizontal:
      row i from column j; vertical: column i from row j; down-right:
      from (i, j); up-right: from (i + 3, j) upwards. */
  function WindowAt(g: Grid, o: Orientation, i: int, j: int): (window: seq<int>)
    requires 0 <= i < o.Outer() && 0 <= j < o.Inner()
    ensures |window| == 4
  {
    match o
    case Horizontal => g[i][j..j + 4]
    case Vertical => ColumnOf(g, i)[j..j + 4]
    case DownRightDiagonal => seq(4, k requires 0 <= k < 4 => g[i + k][j + k])
    case UpRightDiagonal => seq(4, k requires 0 <= k < 4 => g[i + 3 - k][j + k])
  }

  /** Scores of the first n windows at outer index i. */
  function InnerSum(g: Grid, piece: int, o: Orientation, i: int, n: int): int
    requires 0 <= i < o.Outer() && 0 <= n <= o.Inner()
  {
    if n == 0 then 0 else InnerSum(g, piece, o, i, n - 1) + EvaluateWindow(WindowAt(g, o, i, n - 1), piece)
  }

  /** Scores of all windows at the first n outer indices. */
  function OuterSum(g: Grid, piece: int, o: Orientation, n: int): int
    requires 0 <= n <= o.Outer()
  {
    if n == 0 then 0 else OuterSum(g, piece, o, n - 1) + InnerSum(g, piece, o, n - 1, o.Inner())
  }

  /** Pieces of `piece` in the centre column. */
  function CenterCount(g: Grid, piece: int): nat {
    Count(ColumnOf(g, COLS / 2), piece)
  }

  /** The heuristic value of a board for `piece`. */
  function Score(g: Grid, piece: int): int {
    CenterCount(g, piece) * 3 +
    OuterSum(g, piece, Horizontal, Horizontal.Outer()) +
    OuterSum(g, piece, Vertical, Vertical.Outer()) +
    OuterSum(g, piece, DownRightDiagonal, DownRightDiagonal.Outer()) +
    OuterSum(g, piece, UpRightDiagonal, UpRightDiagonal.Outer())
  }

  /** Number of windows the evaluation visits: 24 + 21 + 12 + 12. */
  const WINDOWS := 69

  const MIN_SCORE := -4 * WINDOWS
  const MAX_SCORE := 100 * WINDOWS + 3 * ROWS

  lemma {:induction false} InnerSumBounds(g: Grid, piece: int, o: Orientation, i: int, n: int)
    requires 0 <= i < o.Outer() && 0 <= n <= o.Inner()
    ensures -4 * n <= InnerSum(g, piece, o, i, n) <= 100 * n
  {
    if n > 0 {
      InnerSumBounds(g, piece, o, i, n - 1);
    }
  }

  /** Number of windows at the first n outer indices. */
  function WindowCount(o: Orientation, n: int): int
    requires 0 <= n <= o.Outer()
  {
    if n == 0 then 0 else WindowCount(o, n - 1) + o.Inner()
  }

  lemma {:induction false} OuterSumBounds(g: Grid, piece: int, o: Orientation, n: int)
    requires 0 <= n <= o.Outer()
    ensures -4 * WindowCount(o, n) <= OuterSum(g, piece, o, n) <= 100 * WindowCount(o, n)
  {
    if n > 0 {
      OuterSumBounds(g, piece, o, n - 1);
      InnerSumBounds(g, piece, o, n - 1, o.Inner());
    }
  }

  /** Every board scores between -4 per window and 100 per window plus the
      centre bonus. */
  lemma ScoreBounds(g: Grid, piece: int)
    ensures MIN_SCORE <= Score(g, piece) <= MAX_SCORE
  {
    OuterSumBounds(g, piece, Horizontal, Horizontal.Outer());
    OuterSumBounds(g, piece, Vertical, Vertical.Outer());
    OuterSumBounds(g, piece, DownRightDiagonal, DownRightDiagonal.Outer());
    OuterSumBounds(g, piece, UpRightDiagonal, UpRightDiagonal.Outer());
    assert WindowCount(Horizontal, Horizontal.Outer()) + WindowCount(Vertical, Vertical.Outer()) +
      WindowCount(DownRightDiagonal, DownRightDiagonal.Outer()) + WindowCount(UpRightDiagonal, UpRightDiagonal.Outer()) == WINDOWS;
  }

  /** The vertical window at column i from row j holds rows j..j+3 of column i. */
  lemma VerticalWindow(g: Grid, i: int, j: int)
    requires 0 <= i < Vertical.Outer() && 0 <= j < Vertical.Inner()
    ensures WindowAt(g, Vertical, i, j) == [g[j][i], g[j + 1][i], g[j + 2][i], g[j + 3][i]]
  {
    var column := ColumnOf(g, i);
    assert column[j..j + 4] == [column[j], column[j + 1], column[j + 2], column[j + 3]];
  }

  /** A window scores 100 exactly when its four cells all hold `piece`. */
  lemma FullWindow(g: Grid, piece: int, o: Orientation, i: int, j: int)
    requires 0 <= i < o.Outer() && 0 <= j < o.Inner()
    ensures EvaluateWindow(WindowAt(g, o, i, j), piece) == 100 <==>
      match o
      case Horizontal => HorizontalAt(g, piece, i, j)
      case Vertical => VerticalAt(g, piece, j, i)
      case DownRightDiagonal => DownRightAt(g, piece, i, j)
      case UpRightDiagonal => UpRightAt(g, piece, i + 3, j)
  {
    var w := WindowAt(g, o, i, j);
    var full := EvaluateWindow(w, piece) == 100;
    WindowScoreMeaning(w, piece);
    assert full <==> w[0] == piece && w[1] == piece && w[2] == piece && w[3] == piece;
    match o
    case Horizontal =>
      assert w[0] == g[i][j] && w[1] == g[i][j + 1] && w[2] == g[i][j + 2] && w[3] == g[i][j + 3];
    case Vertical =>
      VerticalWindow(g, i, j);
      assert w[0] == g[j][i] && w[1] == g[j + 1][i] && w[2] == g[j + 2][i] && w[3] == g[j + 3][i];
    case DownRightDiagonal =>
      assert w[0] == g[i][j] && w[1] == g[i + 1][j + 1] && w[2] == g[i + 2][j + 2] && w[3] == g[i + 3][j + 3];
    case UpRightDiagonal =>
      assert w[0] == g[i + 3][j] && w[1] == g[i + 2][j + 1] && w[2] == g[i + 1][j + 2] && w[3] == g[i][j + 3];
  }

  /** Some window of the evaluation scores 100. */
  ghost predicate HasFullWindow(g: Grid, piece: int) {
    exists o: Orientation, i, j :: 0 <= i < o.Outer() && 0 <= j < o.Inner() &&
      EvaluateWindow(WindowAt(g, o, i, j), piece) == 100
  }

  /** The windows the evaluation visits are exactly the lines the win test
      looks at: a board is a win for `piece` iff some window scores 100. */
  lemma WinIffFullWindow(g: Grid, piece: int)
    ensures CheckWin(g, piece) <==> HasFullWindow(g, piece)
  {
    if CheckWin(g, piece) {
      if exists c, r | 0 <= c < COLS - 3 && 0 <= r < ROWS :: HorizontalAt(g, piece, r, c) {
        var c, r :| 0 <= c < COLS - 3 && 0 <= r < ROWS && HorizontalAt(g, piece, r, c);
        FullWindow(g, piece, Horizontal, r, c);
      } else if exists c, r | 0 <= c < COLS && 0 <= r < ROWS - 3 :: VerticalAt(g, piece, r, c) {
        var c, r :| 0 <= c < COLS && 0 <= r < ROWS - 3 && VerticalAt(g, piece, r, c);
        FullWindow(g, piece, Vertical, c, r);
      } else if exists c, r | 0 <= c < COLS - 3 && 0 <= r < ROWS - 3 :: DownRightAt(g, piece, r, c) {
        var c, r :| 0 <= c < COLS - 3 && 0 <= r < ROWS - 3 && DownRightAt(g, piece, r, c);
        FullWindow(g, piece, DownRightDiagonal, r, c);
      } else {
        var c, r :| 0 <= c < COLS - 3 && 3 <= r < ROWS && UpRightAt(g, piece, r, c);
        FullWindow(g, piece, UpRightDiagonal, r - 3, c);
      }
    }
    if HasFullWindow(g, piece) {
      var o: Orientation, i, j :| 0 <= i < o.Outer() && 0 <= j < o.Inner() &&
        EvaluateWindow(WindowAt(g, o, i, j), piece) == 100;
      FullWindow(g, piece, o, i, j);
    }
  }

  /** Adds up the window scores of one orientation, outer loop over i and
      inner loop over j, as the evaluation does. */
  method OrientationScore(g: Grid, piece: int, o: Orientation) returns (score: int)
    ensures score == OuterSum(g, piece, o, o.Outer())
  {
    score := 0;
    for i := 0 to o.Outer()
      invariant score == OuterSum(g, piece, o, i)
    {
      var line := LineScore(g, piece, o, i);
      score := score + line;
    }
  }

  /** The inner loop of the evaluation: the windows at outer index i. */
  method LineScore(g: Grid, piece: int, o: Orientation, i: int) returns (score: int)
    requires 0 <= i < o.Outer()
    ensures score == InnerSum(g, piece, o, i, o.Inner())
  {
    score := 0;
    for j := 0 to o.Inner()
      invariant score == InnerSum(g, piece, o, i, j)
    {
      var window := WindowAt(g, o, i, j);
      score := score + EvaluateWindow(window, piece);
    }
  }

  /** Scores the board for `piece`: three points per own piece in the centre
      column, then the windows of every orientation. */
  method ScorePosition(g: Grid, piece: int) returns (score: int)
    ensures score == Score(g, piece)
    ensures MIN_SCORE <= score <= MAX_SCORE
  {
    score := 0;
    var centerArray := ColumnOf(g, COLS / 2);
    score := score + Count(centerArray, piece) * 3;
    var s := OrientationScore(g, piece, Horizontal);
    score := score + s;
    s := OrientationScore(g, piece, Vertical);
    score := score + s;
    s := OrientationScore(g, piece, DownRightDiagonal);
    score := score + s;
    s := OrientationScore(g, piece, UpRightDiagonal);
    score := score + s;
    assert score == Score(g, piece);
    ScoreBounds(g, piece);
  }
}
