/** The computer opponent of the classic game: depth-limited minimax with
    alpha-beta pruning. The computer plays piece 2 and maximises, the human
    plays piece 1 and minimises. Every branch drops into its own copy of the
    board, so the board being searched is never changed. */
module Search {
  import opened Rules
  import opened Logic
  import opened Evaluation

  /** Value of a position the computer has won; its negation, one the human has won. */
  const WIN := 10_000_000

  /** Stands for the infinities the search starts alpha, beta and the best
      value from: every value a position can have lies strictly between
      -INF and INF. */
  const INF := WIN + 1

  function Max(a: int, b: int): int {
    if a >= b then a else b
  }

  function Min(a: int, b: int): int {
    if a <= b then a else b
  }

  /** A column index. */
  type Column = c: int | 0 <= c < COLS

  /** The playable columns, in increasing order. */
  function ValidLocs(g: Grid): (locs: seq<Column>)
    ensures forall i :: 0 <= i < |locs| ==> IsValid(g, locs[i])
  {
    ValidFrom(g, 0)
  }

  function ValidFrom(g: Grid, c: int): (locs: seq<Column>)
    requires 0 <= c <= COLS
    ensures forall i :: 0 <= i < |locs| ==> c <= locs[i] && IsValid(g, locs[i])
    decreases COLS - c
  {
    if c == COLS then [] else if IsValid(g, c) then [c] + ValidFrom(g, c + 1) else ValidFrom(g, c + 1)
  }

  lemma {:induction false} ValidFromMembers(g: Grid, c: int)
    requires 0 <= c <= COLS
    ensures forall x :: x in ValidFrom(g, c) <==> c <= x < COLS && IsValid(g, x)
    decreases COLS - c
  {
    if c < COLS {
      ValidFromMembers(g, c + 1);
      var rest := ValidFrom(g, c + 1);
      var head: seq<Column> := if IsValid(g, c) then [c] else [];
      assert ValidFrom(g, c) == head + rest;
      forall x ensures x in ValidFrom(g, c) <==> c <= x < COLS && IsValid(g, x) {
        assert x in head + rest <==> x in head || x in rest;
      }
    }
  }

  lemma {:induction false} ValidFromIncreasing(g: Grid, c: int)
    requires 0 <= c <= COLS
    ensures forall i, j :: 0 <= i < j < |ValidFrom(g, c)| ==> ValidFrom(g, c)[i] < ValidFrom(g, c)[j]
    decreases COLS - c
  {
    if c < COLS {
      ValidFromIncreasing(g, c + 1);
    }
  }

  /** `ValidLocs` lists exactly the playable columns, each once, in
      increasing order. */
  lemma ValidLocsExact(g: Grid)
    ensures forall c :: c in ValidLocs(g) <==> 0 <= c < COLS && IsValid(g, c)
    ensures forall i, j :: 0 <= i < j < |ValidLocs(g)| ==> ValidLocs(g)[i] < ValidLocs(g)[j]
  {
    ValidFromMembers(g, 0);
    ValidFromIncreasing(g, 0);
  }

  /** The list comprehension over the columns: every column whose top cell
      the board object reports empty, in increasing order. */
  method PlayableColumns(logic: Connect4Logic) returns (locs: seq<Column>)
    requires logic.Valid()
    ensures locs == ValidLocs(logic.Grid())
  {
    ghost var g := logic.Grid();
    locs := [];
    for c := 0 to COLS
      invariant locs + ValidFrom(g, c) == ValidLocs(g)
    {
      var valid := logic.IsValid(c);
      assert valid == IsValid(g, c);
      if valid {
        assert locs + ValidFrom(g, c) == (locs + [c]) + ValidFrom(g, c + 1);
        locs := locs + [c];
      }
    }
  }

  /** A position where the game is over: a win for either side, or a full top row. */
  predicate IsTerminal(g: Grid) {
    CheckWin(g, 1) || CheckWin(g, 2) || |ValidLocs(g)| == 0
  }

  /** The value the search gives a position it does not expand. */
  function StaticValue(g: Grid): int {
    if IsTerminal(g) then
      if CheckWin(g, 2) then WIN
      else if CheckWin(g, 1) then -WIN
      else 0
    else Score(g, 2)
  }

  /** The piece of the side to move. */
  function Mover(maximizing: bool): int {
    if maximizing then 2 else 1
  }

  /** The position after the side to move plays `col`. */
  function Child(g: Grid, col: int, maximizing: bool): Grid
    requires 0 <= col < COLS
  {
    Drop(g, col, Mover(maximizing))
  }

  // ---------------------------------------------------------------------------
  // Reference: plain minimax, without pruning

  function Value(g: Grid, depth: nat, maximizing: bool): int
    decreases depth, 1, 0
  {
    if depth == 0 || IsTerminal(g) then StaticValue(g)
    else BestOf(g, ValidLocs(g), depth, maximizing)
  }

  /** The best child value over `cols` for the side to move (-INF or INF when
      there is no column). */
  function BestOf(g: Grid, cols: seq<Column>, depth: nat, maximizing: bool): int
    requires depth > 0
    decreases depth, 0, |cols|
  {
    if cols == [] then (if maximizing then -INF else INF)
    else
      var v := Value(Child(g, cols[0], maximizing), depth - 1, !maximizing);
      var rest := BestOf(g, cols[1..], depth, maximizing);
      if maximizing then Max(v, rest) else Min(v, rest)
  }

  // ---------------------------------------------------------------------------
  // The search as the opponent runs it

  /** The value the best-so-far starts from before any column is tried. */
  function Sentinel(maximizing: bool): int {
    if maximizing then -INF else INF
  }

  /** Result (column, value) of the search: None and the static value at a
      leaf, otherwise the column loop started from the first playable column. */
  function AlphaBeta(g: Grid, depth: nat, alpha: int, beta: int, maximizing: bool): (Option<int>, int)
    decreases depth, 1, 0
  {
    if depth == 0 || IsTerminal(g) then (None, StaticValue(g))
    else
      var locs := ValidLocs(g);
      var (column, value) := Loop(g, locs, depth, alpha, beta, maximizing, Sentinel(maximizing), locs[0]);
      (Some(column), value)
  }

  /** The column loop over the columns `cols` still to try, with the current
      window (alpha, beta) and the best value and column so far. A column
      replaces the best one only when its value is strictly better; the loop
      stops as soon as alpha >= beta. */
  function Loop(g: Grid, cols: seq<Column>, depth: nat, alpha: int, beta: int, maximizing: bool,
                value: int, column: int): (int, int)
    requires depth > 0
    decreases depth, 0, |cols|
  {
    if cols == [] then (column, value)
    else
      var col := cols[0];
      var newScore := AlphaBeta(Child(g, col, maximizing), depth - 1, alpha, beta, !maximizing).1;
      if maximizing then
        var (value', column') := if newScore > value then (newScore, col) else (value, column);
        var alpha' := Max(alpha, value');
        if alpha' >= beta then (column', value')
        else Loop(g, cols[1..], depth, alpha', beta, maximizing, value', column')
      else
        var (value', column') := if newScore < value then (newScore, col) else (value, column);
        var beta' := Min(beta, value');
        if alpha >= beta' then (column', value')
        else Loop(g, cols[1..], depth, alpha, beta', maximizing, value', column')
  }

  /** A fresh board with the same cells. */
  method DeepCopy(board: array2<int>) returns (copy: array2<int>)
    requires board.Length0 == ROWS && board.Length1 == COLS
    ensures fresh(copy) && copy.Length0 == ROWS && copy.Length1 == COLS
    ensures Cells(copy) == Cells(board)
  {
    copy := new int[ROWS, COLS]((r, c) requires 0 <= r < ROWS && 0 <= c < COLS reads board => board[r, c]);
    SameCells(Cells(copy), Cells(board));
  }

  /** The search. `random.choice` over the playable columns is an arbitrary
      choice here: whichever column it picks, the result is the one
      `AlphaBeta` gives. The method has no modifies clause, so the board
      it is given is left unchanged. */
  method Minimax(board: array2<int>, depth: nat, alpha: int, beta: int, maximizing: bool)
    returns (column: Option<int>, value: int)
    requires board.Length0 == ROWS && board.Length1 == COLS
    ensures column == AlphaBeta(Cells(board), depth, alpha, beta, maximizing).0
    ensures value == AlphaBeta(Cells(board), depth, alpha, beta, maximizing).1
    decreases depth, 3
  {
    var logic := new Connect4Logic(Some(board));
    var validLocs := PlayableColumns(logic);
    var win1 := logic.CheckWin(1);
    var win2 := logic.CheckWin(2);
    var isTerminal := win1 || win2 || |validLocs| == 0;
    if depth == 0 || isTerminal {
      if isTerminal {
        if win2 {
          return None, WIN;
        } else if win1 {
          return None, -WIN;
        } else {
          return None, 0;
        }
      } else {
        value := ScorePosition(logic.Grid(), 2);
        return None, value;
      }
    }
    var best;
    best, value := ColumnLoop(board, validLocs, depth, alpha, beta, maximizing);
    column := Some(best);
  }

  /** The loop over the playable columns of an expanded position. The
      starting column `random.choice` would pick is an arbitrary one here. */
  method ColumnLoop(board: array2<int>, validLocs: seq<Column>, depth: nat, alpha: int, beta: int, maximizing: bool)
    returns (column: int, value: int)
    requires board.Length0 == ROWS && board.Length1 == COLS
    requires depth > 0 && validLocs != []
    ensures (column, value) ==
      Loop(Cells(board), validLocs, depth, alpha, beta, maximizing, Sentinel(maximizing), validLocs[0])
    decreases depth, 2
  {
    ghost var g := Cells(board);
    assert validLocs[0] in validLocs;
    var pick :| pick in validLocs;
    column := pick;
    var a, b := alpha, beta;
    value := Sentinel(maximizing);
    ghost var result := Loop(g, validLocs, depth, alpha, beta, maximizing, value, pick);
    var i := 0;
    while i < |validLocs|
      invariant 0 <= i <= |validLocs|
      invariant Cells(board) == g
      invariant Loop(g, validLocs[i..], depth, a, b, maximizing, value, column) == result
    {
      a, b, value, column := LoopRound(board, validLocs, i, depth, a, b, maximizing, value, column);
      if a >= b {
        break;
      }
      i := i + 1;
    }
    LoopIgnoresPick(g, validLocs, depth, alpha, beta, maximizing, pick, validLocs[0]);
  }

  /** One round of the column loop: searches column cols[i], keeps it as the
      best column only when its score is strictly better, and narrows the
      window. The loop then stops when alpha >= beta or goes on with the
      columns after i, as `Loop` does. */
  method LoopRound(board: array2<int>, cols: seq<Column>, i: int, depth: nat, alpha: int, beta: int,
                   maximizing: bool, value: int, column: int)
    returns (alpha': int, beta': int, value': int, column': int)
    requires board.Length0 == ROWS && board.Length1 == COLS
    requires depth > 0 && 0 <= i < |cols|
    ensures Loop(Cells(board), cols[i..], depth, alpha, beta, maximizing, value, column) ==
      if alpha' >= beta' then (column', value')
      else Loop(Cells(board), cols[i + 1..], depth, alpha', beta', maximizing, value', column')
    decreases depth, 1
  {
    var c := cols[i];
    var newScore := SearchChild(board, c, depth, alpha, beta, maximizing);
    alpha', beta', value', column' := alpha, beta, value, column;
    if maximizing {
      if newScore > value {
        value', column' := newScore, c;
      }
      alpha' := Max(alpha, value');
    } else {
      if newScore < value {
        value', column' := newScore, c;
      }
      beta' := Min(beta, value');
    }
    LoopStep(Cells(board), cols, i, depth, alpha, beta, maximizing, value, column, newScore, alpha', beta', value', column');
  }

  /** One round of the column loop at index i of `cols`: trying that column
      with result newScore leads to the given best value, best column and
      window, after which the loop stops or goes on with the columns after i. */
  lemma LoopStep(g: Grid, cols: seq<Column>, i: int, depth: nat, alpha: int, beta: int, maximizing: bool,
                 value: int, column: int, newScore: int,
                 alpha': int, beta': int, value': int, column': int)
    requires depth > 0 && 0 <= i < |cols|
    requires newScore == AlphaBeta(Child(g, cols[i], maximizing), depth - 1, alpha, beta, !maximizing).1
    requires maximizing ==>
      (value', column') == (if newScore > value then (newScore, cols[i]) else (value, column)) &&
      alpha' == Max(alpha, value') && beta' == beta
    requires !maximizing ==>
      (value', column') == (if newScore < value then (newScore, cols[i]) else (value, column)) &&
      alpha' == alpha && beta' == Min(beta, value')
    ensures Loop(g, cols[i..], depth, alpha, beta, maximizing, value, column) ==
      if alpha' >= beta' then (column', value')
      else Loop(g, cols[i + 1..], depth, alpha', beta', maximizing, value', column')
  {
    assert cols[i..][0] == cols[i] && cols[i..][1..] == cols[i + 1..];
  }

  /** The body of the column loop: plays `col` for the side to move on a
      copy of the board and searches the copy one level deeper. */
  method SearchChild(board: array2<int>, col: Column, depth: nat, alpha: int, beta: int, maximizing: bool)
    returns (newScore: int)
    requires board.Length0 == ROWS && board.Length1 == COLS && depth > 0
    ensures newScore == AlphaBeta(Child(Cells(board), col, maximizing), depth - 1, alpha, beta, !maximizing).1
    decreases depth, 0
  {
    ghost var g := Cells(board);
    var bCopy := DeepCopy(board);
    var childLogic := new Connect4Logic(Some(bCopy));
    var landed := childLogic.DropPiece(col, Mover(maximizing));
    ghost var h := Cells(bCopy);
    assert h == Child(g, col, maximizing);
    var _, score := Minimax(bCopy, depth - 1, alpha, beta, !maximizing);
    assert Cells(bCopy) == h;
    assert Cells(board) == g;
    newScore := score;
  }

  // ---------------------------------------------------------------------------
  // Properties of the search

  /** What the search returns: a value between -WIN and WIN; a column exactly
      when the position is expanded, and then a playable one; WIN when the
      computer has won, -WIN when only the human has, 0 for a full board
      without a winner, and the heuristic score at depth 0. */
  lemma {:induction false} SearchResult(g: Grid, depth: nat, alpha: int, beta: int, maximizing: bool)
    ensures var (column, value) := AlphaBeta(g, depth, alpha, beta, maximizing);
      -WIN <= value <= WIN &&
      (column.Some? <==> depth > 0 && !IsTerminal(g)) &&
      (column.Some? ==> column.value in ValidLocs(g)) &&
      (CheckWin(g, 2) ==> value == WIN) &&
      (CheckWin(g, 1) && !CheckWin(g, 2) ==> value == -WIN) &&
      (!CheckWin(g, 1) && !CheckWin(g, 2) && ValidLocs(g) == [] ==> value == 0) &&
      (depth == 0 && !IsTerminal(g) ==> value == Score(g, 2))
    decreases depth, 1, 0
  {
    ScoreBounds(g, 2);
    if depth > 0 && !IsTerminal(g) {
      var locs := ValidLocs(g);
      LoopResult(g, locs, depth, alpha, beta, maximizing, Sentinel(maximizing), locs[0]);
    }
  }

  /** The search value lies between -WIN and WIN. */
  lemma SearchBounds(g: Grid, depth: nat, alpha: int, beta: int, maximizing: bool)
    ensures -WIN <= AlphaBeta(g, depth, alpha, beta, maximizing).1 <= WIN
    decreases depth, 2, 0
  {
    SearchResult(g, depth, alpha, beta, maximizing);
  }

  /** The loop ends with a value between -WIN and WIN and with the column it
      started from or one of the columns it tried. */
  lemma {:induction false} LoopResult(g: Grid, cols: seq<Column>, depth: nat, alpha: int, beta: int,
                                      maximizing: bool, value: int, column: int)
    requires depth > 0
    requires -WIN <= value <= WIN || (cols != [] && value == Sentinel(maximizing))
    ensures var (column', value') := Loop(g, cols, depth, alpha, beta, maximizing, value, column);
      -WIN <= value' <= WIN && (column' == column || column' in cols)
    decreases depth, 0, |cols|
  {
    if cols != [] {
      var col := cols[0];
      SearchBounds(Child(g, col, maximizing), depth - 1, alpha, beta, !maximizing);
      var newScore := AlphaBeta(Child(g, col, maximizing), depth - 1, alpha, beta, !maximizing).1;
      if maximizing {
        var (value', column') := if newScore > value then (newScore, col) else (value, column);
        LoopResult(g, cols[1..], depth, Max(alpha, value'), beta, maximizing, value', column');
      } else {
        var (value', column') := if newScore < value then (newScore, col) else (value, column);
        LoopResult(g, cols[1..], depth, alpha, Min(beta, value'), maximizing, value', column');
      }
    }
  }

  /** The column `random.choice` starts from never matters: the first column
      tried always beats the sentinel and replaces it. */
  lemma LoopIgnoresPick(g: Grid, cols: seq<Column>, depth: nat, alpha: int, beta: int, maximizing: bool,
                        pick1: int, pick2: int)
    requires depth > 0 && cols != []
    ensures Loop(g, cols, depth, alpha, beta, maximizing, Sentinel(maximizing), pick1) ==
            Loop(g, cols, depth, alpha, beta, maximizing, Sentinel(maximizing), pick2)
  {
    SearchBounds(Child(g, cols[0], maximizing), depth - 1, alpha, beta, !maximizing);
  }

  /** Plain minimax values lie between -WIN and WIN. */
  lemma {:induction false} ValueBounds(g: Grid, depth: nat, maximizing: bool)
    ensures -WIN <= Value(g, depth, maximizing) <= WIN
    decreases depth, 1, 0
  {
    ScoreBounds(g, 2);
    if depth > 0 && !IsTerminal(g) {
      BestOfBounds(g, ValidLocs(g), depth, maximizing);
    }
  }

  lemma {:induction false} BestOfBounds(g: Grid, cols: seq<Column>, depth: nat, maximizing: bool)
    requires depth > 0 && cols != []
    ensures -WIN <= BestOf(g, cols, depth, maximizing) <= WIN
    decreases depth, 0, |cols|
  {
    ValueBounds(Child(g, cols[0], maximizing), depth - 1, !maximizing);
    if |cols| > 1 {
      BestOfBounds(g, cols[1..], depth, maximizing);
    }
  }

  /** The best child value is reached by one of the columns and no column
      does better for the side to move. */
  lemma {:induction false} BestOfIsBest(g: Grid, cols: seq<Column>, depth: nat, maximizing: bool)
    requires depth > 0 && cols != []
    ensures forall c :: c in cols ==>
      var v := Value(Child(g, c, maximizing), depth - 1, !maximizing);
      if maximizing then v <= BestOf(g, cols, depth, maximizing) else v >= BestOf(g, cols, depth, maximizing)
    ensures exists c :: c in cols && Value(Child(g, c, maximizing), depth - 1, !maximizing) == BestOf(g, cols, depth, maximizing)
    decreases |cols|
  {
    var v := Value(Child(g, cols[0], maximizing), depth - 1, !maximizing);
    ValueBounds(Child(g, cols[0], maximizing), depth - 1, !maximizing);
    if |cols| == 1 {
      assert cols[0] in cols;
    } else {
      BestOfIsBest(g, cols[1..], depth, maximizing);
      var c :| c in cols[1..] && Value(Child(g, c, maximizing), depth - 1, !maximizing) == BestOf(g, cols[1..], depth, maximizing);
      assert c in cols && cols[0] in cols;
      forall c' | c' in cols
        ensures var v' := Value(Child(g, c', maximizing), depth - 1, !maximizing);
          if maximizing then v' <= BestOf(g, cols, depth, maximizing) else v' >= BestOf(g, cols, depth, maximizing)
      {
        if c' != cols[0] {
          assert c' in cols[1..];
        }
      }
    }
  }

  /** In an expanded position the minimax value is the best the side to move
      can reach with a playable column. */
  lemma ValueIsBestMove(g: Grid, depth: nat, maximizing: bool)
    requires depth > 0 && !IsTerminal(g)
    ensures forall c :: c in ValidLocs(g) ==>
      var v := Value(Child(g, c, maximizing), depth - 1, !maximizing);
      if maximizing then v <= Value(g, depth, maximizing) else v >= Value(g, depth, maximizing)
    ensures exists c :: c in ValidLocs(g) && Value(Child(g, c, maximizing), depth - 1, !maximizing) == Value(g, depth, maximizing)
  {
    BestOfIsBest(g, ValidLocs(g), depth, maximizing);
  }

  /** What fail-soft alpha-beta promises about its result r for the window
      (alpha, beta), v being the true minimax value: at or below alpha r is an
      upper bound of v, at or above beta a lower bound, and inside the window
      it is v itself. */
  predicate FailSoft(alpha: int, beta: int, r: int, v: int) {
    (r <= alpha ==> v <= r) && (beta <= r ==> r <= v) && (alpha < r < beta ==> r == v)
  }

  /** Alpha-beta pruning is sound: against plain minimax, the search result
      satisfies the fail-soft bounds, and when it lies inside the window the
      column returned reaches it. */
  lemma {:induction false} AlphaBetaSound(g: Grid, depth: nat, alpha: int, beta: int, maximizing: bool)
    requires -INF <= alpha < beta <= INF
    ensures FailSoft(alpha, beta, AlphaBeta(g, depth, alpha, beta, maximizing).1, Value(g, depth, maximizing))
    ensures var (column, value) := AlphaBeta(g, depth, alpha, beta, maximizing);
      column.Some? && alpha < value < beta ==>
        depth > 0 && 0 <= column.value < COLS &&
        Value(Child(g, column.value, maximizing), depth - 1, !maximizing) == value
    decreases depth, 1, 0
  {
    if depth > 0 && !IsTerminal(g) {
      var locs := ValidLocs(g);
      BestOfBounds(g, locs, depth, maximizing);
      if maximizing {
        MaxLoopSound(g, locs, depth, alpha, beta, -INF, locs[0], -INF);
      } else {
        MinLoopSound(g, locs, depth, alpha, beta, INF, locs[0], INF);
      }
    }
  }

  /** The fail-soft half of AlphaBetaSound on its own. */
  lemma AlphaBetaFailSoft(g: Grid, depth: nat, alpha: int, beta: int, maximizing: bool)
    requires -INF <= alpha < beta <= INF
    ensures FailSoft(alpha, beta, AlphaBeta(g, depth, alpha, beta, maximizing).1, Value(g, depth, maximizing))
    decreases depth, 2, 0
  {
    AlphaBetaSound(g, depth, alpha, beta, maximizing);
  }

  /** The maximising loop, given that the best value so far relates to the
      true best m of the columns already tried as fail-soft demands. */
  lemma {:induction false} MaxLoopSound(g: Grid, cols: seq<Column>, depth: nat, alpha0: int, beta: int,
                                        value: int, column: Column, m: int)
    requires depth > 0
    requires -INF <= alpha0 < beta <= INF
    requires -INF <= value < beta && -INF <= m
    requires value <= alpha0 ==> m <= value
    requires alpha0 < value ==> m == value && Value(Child(g, column, true), depth - 1, false) == value
    ensures var (column', r) := Loop(g, cols, depth, Max(alpha0, value), beta, true, value, column);
      0 <= column' < COLS &&
      FailSoft(alpha0, beta, r, Max(m, BestOf(g, cols, depth, true))) &&
      (alpha0 < r < beta ==> Value(Child(g, column', true), depth - 1, false) == r)
    decreases depth, 0, |cols|
  {
    if cols != [] {
      var child := Child(g, cols[0], true);
      var a := Max(alpha0, value);
      var newScore := AlphaBeta(child, depth - 1, a, beta, false).1;
      var vc := Value(child, depth - 1, false);
      AlphaBetaFailSoft(child, depth - 1, a, beta, false);
      var value' := if newScore > value then newScore else value;
      var column' := if newScore > value then cols[0] else column;
      var rest := BestOf(g, cols[1..], depth, true);
      var m' := Max(m, vc);
      MaxStep(alpha0, beta, value, m, newScore, vc, rest, value', m');
      LoopStep(g, cols, 0, depth, a, beta, true, value, column, newScore, Max(alpha0, value'), beta, value', column');
      assert cols[0..] == cols && cols[1..] == cols[0 + 1..];
      assert BestOf(g, cols, depth, true) == Max(vc, rest);
      if Max(alpha0, value') < beta {
        MaxLoopSound(g, cols[1..], depth, alpha0, beta, value', column', m');
      }
    }
  }

  /** The arithmetic of one round of the maximising loop: the child's
      fail-soft result newScore (true value vc) keeps the relation between
      the best value so far and the true best m. */
  lemma MaxStep(alpha0: int, beta: int, value: int, m: int, newScore: int, vc: int, rest: int,
                value': int, m': int)
    requires -INF <= alpha0 < beta && -INF <= value < beta && -INF <= m
    requires value <= alpha0 ==> m <= value
    requires alpha0 < value ==> m == value
    requires FailSoft(Max(alpha0, value), beta, newScore, vc)
    requires value' == (if newScore > value then newScore else value) && m' == Max(m, vc)
    ensures Max(Max(alpha0, value), value') == Max(alpha0, value')
    ensures Max(m, Max(vc, rest)) == Max(m', rest)
    ensures Max(alpha0, value') < beta ==>
      -INF <= value' < beta && -INF <= m' &&
      (value' <= alpha0 ==> m' <= value') &&
      (alpha0 < value' ==> m' == value' && (newScore > value ==> vc == value'))
    ensures beta <= Max(alpha0, value') ==> newScore > value && beta <= value' <= vc
  {
  }

  /** The minimising loop, symmetric to MaxLoopSound. */
  lemma {:induction false} MinLoopSound(g: Grid, cols: seq<Column>, depth: nat, alpha: int, beta0: int,
                                        value: int, column: Column, m: int)
    requires depth > 0
    requires -INF <= alpha < beta0 <= INF
    requires alpha < value <= INF && m <= INF
    requires beta0 <= value ==> value <= m
    requires value < beta0 ==> m == value && Value(Child(g, column, false), depth - 1, true) == value
    ensures var (column', r) := Loop(g, cols, depth, alpha, Min(beta0, value), false, value, column);
      0 <= column' < COLS &&
      FailSoft(alpha, beta0, r, Min(m, BestOf(g, cols, depth, false))) &&
      (alpha < r < beta0 ==> Value(Child(g, column', false), depth - 1, true) == r)
    decreases depth, 0, |cols|
  {
    if cols != [] {
      var child := Child(g, cols[0], false);
      var b := Min(beta0, value);
      var newScore := AlphaBeta(child, depth - 1, alpha, b, true).1;
      var vc := Value(child, depth - 1, true);
      AlphaBetaFailSoft(child, depth - 1, alpha, b, true);
      var value' := if newScore < value then newScore else value;
      var column' := if newScore < value then cols[0] else column;
      var rest := BestOf(g, cols[1..], depth, false);
      var m' := Min(m, vc);
      MinStep(alpha, beta0, value, m, newScore, vc, rest, value', m');
      LoopStep(g, cols, 0, depth, alpha, b, false, value, column, newScore, alpha, Min(beta0, value'), value', column');
      assert cols[0..] == cols && cols[1..] == cols[0 + 1..];
      assert BestOf(g, cols, depth, false) == Min(vc, rest);
      if alpha < Min(beta0, value') {
        MinLoopSound(g, cols[1..], depth, alpha, beta0, value', column', m');
      }
    }
  }

  /** The arithmetic of one round of the minimising loop, symmetric to MaxStep. */
  lemma MinStep(alpha: int, beta0: int, value: int, m: int, newScore: int, vc: int, rest: int,
                value': int, m': int)
    requires alpha < beta0 <= INF && alpha < value <= INF && m <= INF
    requires beta0 <= value ==> value <= m
    requires value < beta0 ==> m == value
    requires FailSoft(alpha, Min(beta0, value), newScore, vc)
    requires value' == (if newScore < value then newScore else value) && m' == Min(m, vc)
    ensures Min(Min(beta0, value), value') == Min(beta0, value')
    ensures Min(m, Min(vc, rest)) == Min(m', rest)
    ensures alpha < Min(beta0, value') ==>
      alpha < value' <= INF && m' <= INF &&
      (beta0 <= value' ==> value' <= m') &&
      (value' < beta0 ==> m' == value' && (newScore < value ==> vc == value'))
    ensures Min(beta0, value') <= alpha ==> newScore < value && vc <= value' <= alpha
  {
  }

  /** The opponent's top-level call, with alpha = -inf and beta = inf, returns
      the exact minimax value and a playable column that reaches it. */
  lemma RootSearchOptimal(g: Grid, depth: nat)
    requires depth > 0 && !IsTerminal(g)
    ensures var (column, value) := AlphaBeta(g, depth, -INF, INF, true);
      value == Value(g, depth, true) &&
      column.Some? && column.value in ValidLocs(g) &&
      Value(Child(g, column.value, true), depth - 1, false) == value
  {
    SearchResult(g, depth, -INF, INF, true);
    AlphaBetaSound(g, depth, -INF, INF, true);
  }

  /** Searching one move deep, the opponent takes a winning column whenever
      it has one, and reports the win's value. */
  lemma TakesImmediateWin(g: Grid, win: int)
    requires !IsTerminal(g) && win in ValidLocs(g) && CheckWin(Child(g, win, true), 2)
    ensures var (column, value) := AlphaBeta(g, 1, -INF, INF, true);
      value == WIN && column.Some? && column.value in ValidLocs(g) &&
      CheckWin(Child(g, column.value, true), 2)
  {
    RootSearchOptimal(g, 1);
    ValueIsBestMove(g, 1, true);
    ValueBounds(g, 1, true);
    var (column, value) := AlphaBeta(g, 1, -INF, INF, true);
    var child := Child(g, column.value, true);
    ScoreBounds(child, 2);
  }
}
