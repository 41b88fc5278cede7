/** Four-in-a-row windows and win detection.

    A window is four consecutive cells in one of four directions, named by
    its first cell. The game scans four families of windows; `Windows` lists
    them in the game's scan order, and both win detection and the best-first
    heuristic look at exactly this list. */
module Lines {
  import opened Board

  datatype Direction = Horizontal | Vertical | DownRight | DownLeft

  datatype Window = Window(row: int, col: int, dir: Direction)

  /** Row of the k-th cell of the window (rows grow downwards). */
  function RowAt(w: Window, k: int): int {
    match w.dir
    case Horizontal => w.row
    case _ => w.row + k
  }

  /** Column of the k-th cell of the window. */
  function ColAt(w: Window, k: int): int {
    match w.dir
    case Vertical => w.col
    case DownLeft => w.col - k
    case _ => w.col + k
  }

  /** Both ends of the window (cells 0 and 3), hence all four cells, lie on
      the grid. */
  predicate InBounds(w: Window) {
    && 0 <= RowAt(w, 0) < ROWS && 0 <= RowAt(w, 3) < ROWS
    && 0 <= ColAt(w, 0) < COLUMNS && 0 <= ColAt(w, 3) < COLUMNS
  }

  /** The k-th cell of an on-grid window. */
  function CellAt(b: Grid, w: Window, k: nat): Cell
    requires ValidBoard(b) && InBounds(w) && k < 4
  {
    b[RowAt(w, k)][ColAt(w, k)]
  }

  /** All four cells of the window hold `p`. */
  predicate Owned(b: Grid, w: Window, p: Cell)
    requires ValidBoard(b) && InBounds(w)
  {
    CellAt(b, w, 0) == p && CellAt(b, w, 1) == p && CellAt(b, w, 2) == p && CellAt(b, w, 3) == p
  }

  // ---------------------------------------------------------------------
  // The scanned windows, in the game's loop order
  // ---------------------------------------------------------------------

  /** For each row, the windows starting at columns 0..3. */
  function HorizontalWindows(): seq<Window> {
    seq(24, k => Window(k / 4, k % 4, Horizontal))
  }

  /** For each column, the windows starting at rows 0..2. */
  function VerticalWindows(): seq<Window> {
    seq(21, k => Window(k % 3, k / 3, Vertical))
  }

  /** For start rows 0..2, the windows starting at columns 0..3 going down-right. */
  function DownRightWindows(): seq<Window> {
    seq(12, k => Window(k / 4, k % 4, DownRight))
  }

  /** For start rows 0..2, the windows starting at columns 3..6 going down-left. */
  function DownLeftWindows(): seq<Window> {
    seq(12, k => Window(k / 4, 3 + k % 4, DownLeft))
  }

  function Windows(): seq<Window> {
    HorizontalWindows() + VerticalWindows() + DownRightWindows() + DownLeftWindows()
  }

  predicate AllInBounds(ws: seq<Window>) {
    forall k :: 0 <= k < |ws| ==> InBounds(ws[k])
  }

  /** The scan list holds 69 windows, each on the grid, each once, and every
      on-grid window is among them. */
  lemma WindowsExact()
    ensures |Windows()| == 69
    ensures AllInBounds(Windows())
    ensures forall i, j :: 0 <= i < j < |Windows()| ==> Windows()[i] != Windows()[j]
    ensures forall w :: InBounds(w) ==> w in Windows()
  {
    var h, v, dr, dl := HorizontalWindows(), VerticalWindows(), DownRightWindows(), DownLeftWindows();
    var ws := Windows();
    assert ws == h + v + dr + dl;
    assert forall k :: 0 <= k < |ws| ==>
      ws[k] == (if k < 24 then h[k] else if k < 45 then v[k - 24] else if k < 57 then dr[k - 45] else dl[k - 57]);
    forall w | InBounds(w)
      ensures w in ws
    {
      match w.dir
      case Horizontal =>
        assert h[w.row * 4 + w.col] == w;
        assert ws[w.row * 4 + w.col] == w;
      case Vertical =>
        assert v[w.col * 3 + w.row] == w;
        assert ws[24 + w.col * 3 + w.row] == w;
      case DownRight =>
        assert dr[w.row * 4 + w.col] == w;
        assert ws[45 + w.row * 4 + w.col] == w;
      case DownLeft =>
        assert dl[w.row * 4 + w.col - 3] == w;
        assert ws[57 + w.row * 4 + w.col - 3] == w;
    }
  }

  /** The part of `WindowsExact` a scan over the list needs. */
  lemma WindowsOnGrid()
    ensures |Windows()| == 69 && AllInBounds(Windows())
  {
    WindowsExact();
  }

  // ---------------------------------------------------------------------
  // Scanning a list of windows
  // ---------------------------------------------------------------------

  /** Some window of the list is owned by `p`. */
  function AnyOwned(b: Grid, ws: seq<Window>, p: Cell): bool
    requires ValidBoard(b) && AllInBounds(ws)
  {
    if ws == [] then false
    else AnyOwned(b, ws[..|ws| - 1], p) || Owned(b, ws[|ws| - 1], p)
  }

  /** How many windows of the list `p` owns. */
  function CountOwned(b: Grid, ws: seq<Window>, p: Cell): nat
    requires ValidBoard(b) && AllInBounds(ws)
  {
    if ws == [] then 0
    else CountOwned(b, ws[..|ws| - 1], p) + (if Owned(b, ws[|ws| - 1], p) then 1 else 0)
  }

  lemma {:induction false} AnyOwnedMeansSomeWindow(b: Grid, ws: seq<Window>, p: Cell)
    requires ValidBoard(b) && AllInBounds(ws)
    ensures AnyOwned(b, ws, p) <==> exists k :: 0 <= k < |ws| && Owned(b, ws[k], p)
  {
    if ws != [] {
      var front := ws[..|ws| - 1];
      AnyOwnedMeansSomeWindow(b, front, p);
      assert forall k :: 0 <= k < |front| ==> front[k] == ws[k];
    }
  }

  /** At most one point per window, and a positive count exactly when some
      window is owned. */
  lemma {:induction false} CountOwnedBounds(b: Grid, ws: seq<Window>, p: Cell)
    requires ValidBoard(b) && AllInBounds(ws)
    ensures CountOwned(b, ws, p) <= |ws|
    ensures CountOwned(b, ws, p) > 0 <==> AnyOwned(b, ws, p)
  {
    if ws != [] {
      CountOwnedBounds(b, ws[..|ws| - 1], p);
    }
  }

  // ---------------------------------------------------------------------
  // Win detection
  // ---------------------------------------------------------------------

  /** Four `p` cells going right from (r, c). */
  predicate RowRun(b: Grid, p: Cell, r: int, c: int)
    requires ValidBoard(b) && 0 <= r < ROWS && 0 <= c && c + 3 < COLUMNS
  {
    b[r][c] == p && b[r][c + 1] == p && b[r][c + 2] == p && b[r][c + 3] == p
  }

  /** Four `p` cells going down from (r, c). */
  predicate ColumnRun(b: Grid, p: Cell, r: int, c: int)
    requires ValidBoard(b) && 0 <= r && r + 3 < ROWS && 0 <= c < COLUMNS
  {
    b[r][c] == p && b[r + 1][c] == p && b[r + 2][c] == p && b[r + 3][c] == p
  }

  /** Four `p` cells going down and to the right from (r, c). */
  predicate DownRightRun(b: Grid, p: Cell, r: int, c: int)
    requires ValidBoard(b) && 0 <= r && r + 3 < ROWS && 0 <= c && c + 3 < COLUMNS
  {
    b[r][c] == p && b[r + 1][c + 1] == p && b[r + 2][c + 2] == p && b[r + 3][c + 3] == p
  }

  /** Four `p` cells going down and to the left from (r, c). */
  predicate DownLeftRun(b: Grid, p: Cell, r: int, c: int)
    requires ValidBoard(b) && 0 <= r && r + 3 < ROWS && 3 <= c < COLUMNS
  {
    b[r][c] == p && b[r + 1][c - 1] == p && b[r + 2][c - 2] == p && b[r + 3][c - 3] == p
  }

  /** Reference definition of a win, by explicit coordinates: four
      consecutive `p` cells in a row, a column or either diagonal. */
  predicate HasFourInRow(b: Grid, p: Cell)
    requires ValidBoard(b)
  {
    || (exists r, c :: 0 <= r < ROWS && 0 <= c && c + 3 < COLUMNS && RowRun(b, p, r, c))
    || (exists r, c :: 0 <= r && r + 3 < ROWS && 0 <= c < COLUMNS && ColumnRun(b, p, r, c))
    || (exists r, c :: 0 <= r && r + 3 < ROWS && 0 <= c && c + 3 < COLUMNS && DownRightRun(b, p, r, c))
    || (exists r, c :: 0 <= r && r + 3 < ROWS && 3 <= c < COLUMNS && DownLeftRun(b, p, r, c))
  }

  /** An owned on-grid window is a run of the reference definition. */
  lemma OwnedWindowIsRun(b: Grid, w: Window, p: Cell)
    requires ValidBoard(b) && InBounds(w) && Owned(b, w, p)
    ensures HasFourInRow(b, p)
  {
    match w.dir
    case Horizontal => assert RowRun(b, p, w.row, w.col);
    case Vertical => assert ColumnRun(b, p, w.row, w.col);
    case DownRight => assert DownRightRun(b, p, w.row, w.col);
    case DownLeft => assert DownLeftRun(b, p, w.row, w.col);
  }

  /** Every run of the reference definition is an owned on-grid window. */
  lemma RunIsOwnedWindow(b: Grid, p: Cell)
    requires ValidBoard(b) && HasFourInRow(b, p)
    ensures exists w :: InBounds(w) && Owned(b, w, p)
  {
    if r, c :| 0 <= r < ROWS && 0 <= c && c + 3 < COLUMNS && RowRun(b, p, r, c) {
      assert Owned(b, Window(r, c, Horizontal), p);
    } else if r, c :| 0 <= r && r + 3 < ROWS && 0 <= c < COLUMNS && ColumnRun(b, p, r, c) {
      assert Owned(b, Window(r, c, Vertical), p);
    } else if r, c :| 0 <= r && r + 3 < ROWS && 0 <= c && c + 3 < COLUMNS && DownRightRun(b, p, r, c) {
      assert Owned(b, Window(r, c, DownRight), p);
    } else {
      var r, c :| 0 <= r && r + 3 < ROWS && 3 <= c < COLUMNS && DownLeftRun(b, p, r, c);
      assert Owned(b, Window(r, c, DownLeft), p);
    }
  }

  /** Some scanned window is owned by `p` exactly when `p` has four in a row. */
  lemma ScanFindsExactlyRuns(b: Grid, p: Cell)
    requires ValidBoard(b)
    ensures AllInBounds(Windows()) && (AnyOwned(b, Windows(), p) <==> HasFourInRow(b, p))
  {
    WindowsExact();
    var ws := Windows();
    AnyOwnedMeansSomeWindow(b, ws, p);
    if AnyOwned(b, ws, p) {
      var k :| 0 <= k < |ws| && Owned(b, ws[k], p);
      OwnedWindowIsRun(b, ws[k], p);
    }
    if HasFourInRow(b, p) {
      RunIsOwnedWindow(b, p);
      var w :| InBounds(w) && Owned(b, w, p);
      var k :| 0 <= k < |ws| && ws[k] == w;
    }
  }

  /** Win detection for the player recorded in the state: true exactly when
      that player has four in a row in some direction. */
  function CheckWinner(s: GameState): (won: bool)
    requires ValidBoard(s.board)
    ensures won <==> HasFourInRow(s.board, s.currentPlayer)
  {
    ScanFindsExactlyRuns(s.board, s.currentPlayer);
    AnyOwned(s.board, Windows(), s.currentPlayer)
  }
}
