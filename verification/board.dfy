/** The board state of Connect Four: a ROWS x COLUMNS grid of cells, row 0 at
    the top, together with the player whose piece goes in next.

    Boards are immutable values here, so every move yields a new state and a
    copy can never be disturbed by a move applied to another copy. */
module Board {
  import opened Options

  const ROWS: nat := 6
  const COLUMNS: nat := 7

  /** A grid cell. A player is identified with the cell value of their
      pieces, as in the game code, so `currentPlayer` is a `Cell` too. */
  datatype Cell = Empty | X | O

  type Grid = seq<seq<Cell>>

  datatype GameState = GameState(board: Grid, currentPlayer: Cell)

  /** The grid has the configured dimensions. */
  predicate ValidBoard(b: Grid) {
    |b| == ROWS && forall r :: 0 <= r < ROWS ==> |b[r]| == COLUMNS
  }

  /** The player who moves after `p`: O follows X, and X follows O. */
  function Opponent(p: Cell): (q: Cell)
    ensures q != Empty && q != p
  {
    if p == O then X else O
  }

  // ---------------------------------------------------------------------
  // Legal moves
  // ---------------------------------------------------------------------

  /** The open columns among `col`, `col + 1`, ..., COLUMNS - 1, in that order. */
  function LegalMovesFrom(b: Grid, col: nat): (moves: seq<nat>)
    requires ValidBoard(b) && col <= COLUMNS
    decreases COLUMNS - col
    ensures forall c: nat :: c in moves <==> col <= c < COLUMNS && b[0][c] == Empty
    ensures forall i, j :: 0 <= i < j < |moves| ==> moves[i] < moves[j]
  {
    if col == COLUMNS then []
    else
      var rest := LegalMovesFrom(b, col + 1);
      if b[0][col] == Empty then
        assert forall k :: 0 <= k < |rest| ==> rest[k] in rest;
        [col] + rest
      else rest
  }

  /** The columns a piece can still be dropped into: exactly those whose top
      cell is empty, strictly ascending (so without repetitions). */
  function LegalMoves(s: GameState): (moves: seq<nat>)
    requires ValidBoard(s.board)
    ensures forall c: nat :: c in moves <==> c < COLUMNS && s.board[0][c] == Empty
    ensures forall i :: 0 <= i < |moves| ==> moves[i] < COLUMNS
    ensures forall i, j :: 0 <= i < j < |moves| ==> moves[i] < moves[j]
  {
    var moves := LegalMovesFrom(s.board, 0);
    assert forall i :: 0 <= i < |moves| ==> moves[i] in moves;
    moves
  }

  /** The columns among `col`, ..., COLUMNS - 1 whose top cell is empty. */
  function OpenColumnsFrom(b: Grid, col: nat): set<nat>
    requires ValidBoard(b)
  {
    set c: nat | col <= c < COLUMNS && b[0][c] == Empty
  }

  function OpenColumns(b: Grid): set<nat>
    requires ValidBoard(b)
  {
    OpenColumnsFrom(b, 0)
  }

  /** The list of open columns from `col` on has one entry per open column. */
  lemma {:induction false} LegalMovesFromCount(b: Grid, col: nat)
    requires ValidBoard(b) && col <= COLUMNS
    decreases COLUMNS - col
    ensures |LegalMovesFrom(b, col)| == |OpenColumnsFrom(b, col)|
  {
    if col == COLUMNS {
      assert OpenColumnsFrom(b, col) == {};
    } else {
      LegalMovesFromCount(b, col + 1);
      var rest := OpenColumnsFrom(b, col + 1);
      if b[0][col] == Empty {
        assert OpenColumnsFrom(b, col) == {col} + rest;
      } else {
        assert OpenColumnsFrom(b, col) == rest;
      }
    }
  }

  /** There are exactly as many legal moves as open columns. */
  lemma LegalMovesCount(s: GameState)
    requires ValidBoard(s.board)
    ensures |LegalMoves(s)| == |OpenColumns(s.board)|
  {
    LegalMovesFromCount(s.board, 0);
  }

  // ---------------------------------------------------------------------
  // Applying a move
  // ---------------------------------------------------------------------

  /** Every cell of column `col` is occupied. */
  predicate ColumnFull(b: Grid, col: nat)
    requires ValidBoard(b) && col < COLUMNS
  {
    forall r :: 0 <= r < ROWS ==> b[r][col] != Empty
  }

  /** `row` is the largest row index whose cell in column `col` is empty:
      the cell a move in `col` fills. */
  predicate IsDropRow(b: Grid, col: nat, row: nat)
    requires ValidBoard(b) && col < COLUMNS
  {
    && row < ROWS
    && b[row][col] == Empty
    && forall r :: row < r < ROWS ==> b[r][col] != Empty
  }

  /** Scans column `col` upwards from `row` to row 0 for an empty cell. */
  function FindEmptyUpFrom(b: Grid, col: nat, row: int): (found: Option<nat>)
    requires ValidBoard(b) && col < COLUMNS && row < ROWS
    decreases row + 1
    ensures found.None? ==> forall r :: 0 <= r <= row ==> b[r][col] != Empty
    ensures found.Some? ==>
      && found.value <= row
      && b[found.value][col] == Empty
      && forall r :: found.value < r <= row ==> b[r][col] != Empty
  {
    if row < 0 then None
    else if b[row][col] == Empty then Some(row)
    else FindEmptyUpFrom(b, col, row - 1)
  }

  /** The row a piece dropped into `col` lands in, if the column has room. */
  function DropRow(b: Grid, col: nat): (found: Option<nat>)
    requires ValidBoard(b) && col < COLUMNS
    ensures found.None? <==> ColumnFull(b, col)
    ensures found.Some? ==> IsDropRow(b, col, found.value)
    ensures forall row: nat :: IsDropRow(b, col, row) ==> found == Some(row)
  {
    FindEmptyUpFrom(b, col, ROWS - 1)
  }

  /** The two grids agree on every cell except possibly (row, col). */
  predicate SameExcept(a: Grid, b: Grid, row: nat, col: nat)
    requires ValidBoard(a) && ValidBoard(b)
  {
    forall r, c :: 0 <= r < ROWS && 0 <= c < COLUMNS && (r != row || c != col) ==> a[r][c] == b[r][c]
  }

  /** Drops the current player's piece into `col` and passes the turn.
      On a full column the grid stays as it was, but the turn still passes. */
  function MakeMove(s: GameState, col: nat): (next: GameState)
    requires ValidBoard(s.board) && col < COLUMNS
    ensures ValidBoard(next.board)
    ensures next.currentPlayer == Opponent(s.currentPlayer)
    ensures ColumnFull(s.board, col) ==> next.board == s.board
    ensures forall row: nat :: IsDropRow(s.board, col, row) ==>
      next.board[row][col] == s.currentPlayer && SameExcept(next.board, s.board, row, col)
  {
    var board :=
      match DropRow(s.board, col)
      case None => s.board
      case Some(row) => s.board[row := s.board[row][col := s.currentPlayer]];
    GameState(board, Opponent(s.currentPlayer))
  }

  /** A deep copy: a fresh grid built row by row, equal to the original. */
  function Copy(s: GameState): (c: GameState)
    ensures c == s
  {
    GameState(seq(|s.board|, r requires 0 <= r < |s.board| => s.board[r][..]), s.currentPlayer)
  }

  // ---------------------------------------------------------------------
  // Full board
  // ---------------------------------------------------------------------

  /** All cells of the grid, row by row. */
  function Pieces(b: Grid): (cells: seq<Cell>)
    ensures forall x :: x in cells <==> exists r, c :: 0 <= r < |b| && 0 <= c < |b[r]| && b[r][c] == x
  {
    if b == [] then [] else
      var front := b[..|b| - 1];
      assert forall r :: 0 <= r < |front| ==> front[r] == b[r];
      Pieces(front) + b[|b| - 1]
  }

  /** The board is full when no cell of it is empty. */
  function IsBoardFull(s: GameState): (full: bool)
    requires ValidBoard(s.board)
    ensures full <==> forall r, c :: 0 <= r < ROWS && 0 <= c < COLUMNS ==> s.board[r][c] != Empty
  {
    Empty !in Pieces(s.board)
  }

  lemma FullBoardHasNoLegalMoves(s: GameState)
    requires ValidBoard(s.board)
    ensures IsBoardFull(s) ==> LegalMoves(s) == []
  {
    if LegalMoves(s) != [] {
      var c := LegalMoves(s)[0];
      assert s.board[0][c] == Empty;
    }
  }

  /** A move into an open column always places a piece: there is a drop row
      and it now holds the mover's piece. */
  lemma LegalMovePlacesPiece(s: GameState, col: nat)
    requires ValidBoard(s.board) && col in LegalMoves(s)
    ensures DropRow(s.board, col).Some?
    ensures MakeMove(s, col).board[DropRow(s.board, col).value][col] == s.currentPlayer
  {
    assert s.board[0][col] == Empty;
  }

  // ---------------------------------------------------------------------
  // Gravity
  // ---------------------------------------------------------------------

  /** Every piece rests on the bottom row or on another piece. Boards that
      only ever receive pieces through MakeMove keep this shape. */
  predicate Settled(b: Grid)
    requires ValidBoard(b)
  {
    forall r, c :: 0 <= r < ROWS - 1 && 0 <= c < COLUMNS ==> RestsOnPiece(b, r, c)
  }

  /** The cell (r, c) is empty or the cell below it is occupied. */
  predicate RestsOnPiece(b: Grid, r: nat, c: nat)
    requires ValidBoard(b) && r < ROWS - 1 && c < COLUMNS
  {
    b[r][c] != Empty ==> b[r + 1][c] != Empty
  }

  lemma MakeMoveKeepsSettled(s: GameState, col: nat)
    requires ValidBoard(s.board) && col < COLUMNS && Settled(s.board)
    ensures Settled(MakeMove(s, col).board)
  {
    var b := s.board;
    var nb := MakeMove(s, col).board;
    match DropRow(b, col)
    case None =>
    case Some(row) =>
      if row > 0 {
        // The cell above the drop row is empty, so nothing rests on it.
        assert RestsOnPiece(b, row - 1, col);
      }
      forall r, c | 0 <= r < ROWS - 1 && 0 <= c < COLUMNS
        ensures RestsOnPiece(nb, r, c)
      {
        assert RestsOnPiece(b, r, c);
      }
  }

  /** Below an occupied cell of a settled board, the column is occupied. */
  lemma {:induction false} SettledBelowOccupied(b: Grid, col: nat, row: nat)
    requires ValidBoard(b) && Settled(b) && col < COLUMNS && row < ROWS
    requires b[row][col] != Empty
    ensures forall r :: row <= r < ROWS ==> b[r][col] != Empty
    decreases ROWS - row
  {
    if row + 1 < ROWS {
      assert RestsOnPiece(b, row, col);
      SettledBelowOccupied(b, col, row + 1);
    }
  }

  /** On a settled board the drop row is the lowest empty cell of the column:
      every cell from the top down to it is empty. */
  lemma SettledDropRowIsLowestEmpty(b: Grid, col: nat, row: nat)
    requires ValidBoard(b) && Settled(b) && col < COLUMNS && IsDropRow(b, col, row)
    ensures forall r :: 0 <= r <= row ==> b[r][col] == Empty
  {
    forall r | 0 <= r <= row
      ensures b[r][col] == Empty
    {
      if b[r][col] != Empty {
        SettledBelowOccupied(b, col, r);
      }
    }
  }

  /** On a settled board, having no legal move is the same as being full. */
  lemma SettledNoMovesIffFull(s: GameState)
    requires ValidBoard(s.board) && Settled(s.board)
    ensures LegalMoves(s) == [] <==> IsBoardFull(s)
  {
    FullBoardHasNoLegalMoves(s);
    if LegalMoves(s) == [] {
      forall r, c | 0 <= r < ROWS && 0 <= c < COLUMNS
        ensures s.board[r][c] != Empty
      {
        assert c !in LegalMoves(s);
        SettledBelowOccupied(s.board, c, 0);
      }
    }
  }
}
