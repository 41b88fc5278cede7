/** The evaluation functions of the best-first ("A*") player: a terminal
    score seen from a fixed reference player, and a heuristic that counts
    the four-in-a-row windows the player to move owns. */
module AStar {
  import opened Board
  import opened Lines

  /** The searcher always scores from X's point of view, whoever is to move. */
  const REFERENCE_PLAYER: Cell := X

  /** Points per owned window. */
  const WINDOW_BONUS: int := 10

  /** Score of a won position for the reference player (negated for the other). */
  const WIN_SCORE: int := 100

  /** Adds WINDOW_BONUS for every window, among those win detection scans,
      whose four cells all hold the player recorded in the state. */
  method Heuristic(s: GameState) returns (score: int)
    requires ValidBoard(s.board)
    ensures AllInBounds(Windows()) && score == WINDOW_BONUS * CountOwned(s.board, Windows(), s.currentPlayer)
    ensures 0 <= score <= WINDOW_BONUS * 69
    ensures score % WINDOW_BONUS == 0
    ensures score > 0 <==> CheckWinner(s)
  {
    WindowsOnGrid();
    var ws := Windows();
    score := 0;
    var k := 0;
    while k < |ws|
      invariant 0 <= k <= |ws|
      invariant AllInBounds(ws[..k])
      invariant score == WINDOW_BONUS * CountOwned(s.board, ws[..k], s.currentPlayer)
    {
      assert ws[..k + 1][..k] == ws[..k];
      if Owned(s.board, ws[k], s.currentPlayer) {
        score := score + WINDOW_BONUS;
      }
      k := k + 1;
    }
    assert ws[..k] == ws;
    CountOwnedBounds(s.board, ws, s.currentPlayer);
    ScanFindsExactlyRuns(s.board, s.currentPlayer);
  }

  /** Terminal score: +WIN_SCORE when the player recorded in the state has
      four in a row and is the reference player, -WIN_SCORE when that player
      has four in a row and is not, and 0 otherwise (full board or not). */
  function GetScore(s: GameState): (score: int)
    requires ValidBoard(s.board)
    ensures score == WIN_SCORE <==> HasFourInRow(s.board, s.currentPlayer) && s.currentPlayer == REFERENCE_PLAYER
    ensures score == -WIN_SCORE <==> HasFourInRow(s.board, s.currentPlayer) && s.currentPlayer != REFERENCE_PLAYER
    ensures score == 0 <==> !HasFourInRow(s.board, s.currentPlayer)
  {
    if CheckWinner(s) then
      (if s.currentPlayer == REFERENCE_PLAYER then WIN_SCORE else -WIN_SCORE)
    else if IsBoardFull(s) then 0
    else 0
  }
}
