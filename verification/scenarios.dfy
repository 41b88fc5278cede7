/** Concrete positions that pin the rules down on small examples. */
module Scenarios {
  import opened Board
  import opened Lines
  import opened Options
  import opened Mcts

  function EmptyBoard(): (b: Grid)
    ensures ValidBoard(b)
  {
    seq(ROWS, r => seq(COLUMNS, c => Empty))
  }

  /** X pieces in the first `n` cells of the bottom row, the rest empty. */
  function BottomRun(n: nat): (b: Grid)
    ensures ValidBoard(b)
  {
    seq(ROWS, r => seq(COLUMNS, c => if r == ROWS - 1 && c < n then X else Empty))
  }

  /** Three in a row is not a win. */
  lemma RunOfThreeIsNoWin()
    ensures !CheckWinner(GameState(BottomRun(3), X))
  {
  }

  /** Four in a row is a win. */
  lemma RunOfFourIsWin()
    ensures CheckWinner(GameState(BottomRun(4), X))
  {
    assert RowRun(BottomRun(4), X, ROWS - 1, 0);
  }

  /** Five in a row is a win. */
  lemma RunOfFiveIsWin()
    ensures CheckWinner(GameState(BottomRun(5), X))
  {
    assert RowRun(BottomRun(5), X, ROWS - 1, 1);
  }

  /** The run belongs to X only: with O recorded as the player there is no win. */
  lemma WinIsCheckedForRecordedPlayer()
    ensures !CheckWinner(GameState(BottomRun(4), O))
  {
  }

  /** With every top cell empty, the open columns from `col` on are all of them. */
  lemma {:induction false} AllOpenFrom(b: Grid, col: nat)
    requires ValidBoard(b) && col <= COLUMNS
    requires forall c :: 0 <= c < COLUMNS ==> b[0][c] == Empty
    decreases COLUMNS - col
    ensures LegalMovesFrom(b, col) == seq(COLUMNS - col, k => col + k)
  {
    if col < COLUMNS {
      AllOpenFrom(b, col + 1);
      assert [col] + seq(COLUMNS - (col + 1), k => col + 1 + k) == seq(COLUMNS - col, k => col + k);
    }
  }

  /** When no column is full, every column is a legal move, in order. */
  lemma OpenTopRowAllMoves(s: GameState)
    requires ValidBoard(s.board)
    requires forall c :: 0 <= c < COLUMNS ==> s.board[0][c] == Empty
    ensures LegalMoves(s) == seq(COLUMNS, c => c)
  {
    AllOpenFrom(s.board, 0);
  }

  /** On the empty board every column is open: the moves are 0, 1, ..., 6. */
  lemma EmptyBoardLegalMoves()
    ensures LegalMoves(GameState(EmptyBoard(), X)) == seq(COLUMNS, c => c)
  {
    OpenTopRowAllMoves(GameState(EmptyBoard(), X));
  }

  /** The first piece lands on the bottom row, and O moves next. */
  lemma OpeningMove(col: nat)
    requires col < COLUMNS
    ensures MakeMove(GameState(EmptyBoard(), X), col).board[ROWS - 1][col] == X
    ensures MakeMove(GameState(EmptyBoard(), X), col).currentPlayer == O
  {
    assert IsDropRow(EmptyBoard(), col, ROWS - 1);
  }

  /** A root with a playout node that names it as parent but is not among its
      children is a valid arena, so every tree operation accepts it. */
  lemma DetachedPlayoutNodeAllowed(s: GameState)
    requires ValidBoard(s.board)
    ensures ValidTree([NewNode(s, None), NewNode(s, Some(0))])
    ensures NewNode(s, None).children == []
  {
    assert AddNode(NewTree(s), 0, s) == [NewNode(s, None), NewNode(s, Some(0))];
  }
}
