# Connect Four engine core in Dafny

This project models the rules layer and the deterministic parts of the
search code of a Connect Four player written in Python (`Game.py`):

- **`GameState`**: a 6 x 7 grid of cells (`X`, `O` or empty, row 0 at the
  top) and the player to move. It covers legal-move enumeration, gravity move
  application with the turn toggle, four-in-a-row detection for the recorded
  player, full-board detection and deep copy (module `Board`, file
  `board.dfy`; win detection in module `Lines`, file `lines.dfy`).
- **`AStar`**: the window-counting heuristic, which counts the windows of
  the player recorded in the state, and the three-way terminal score, which
  is seen from the fixed reference player `X` (module `AStar`, file
  `astar.dfy`).
- **`CMTS`**: the Monte Carlo tree nodes. It covers the full-expansion test,
  expansion (one child per legal move, appended), backpropagation along the
  parent chain and child selection with exploration factor 0 (module `Mcts`,
  file `mcts.dfy`).
- Concrete positions for the rules are in module `Scenarios`
  (`scenarios.dfy`).

Boards are immutable `seq<seq<Cell>>` values and every operation is a pure
function, except `Heuristic` and `SelectChild`, which keep the source's loops
as methods. The search tree is an arena: a `seq<Node>` in which a node names
its parent and children by index, and every parent index is smaller than its
child's. The ancestor walk therefore terminates, and backpropagation can be
stated as an exact "these nodes change, nothing else does" update.

Window scanning: the game scans four families of four-cell windows
(horizontal, vertical, down-right, down-left). `Lines.Windows` lists them in
the game's loop order. `Lines.WindowsExact` proves the list has 69 windows,
that each is on the grid and appears once, and that every on-grid window is
in it. Win detection and the heuristic both read this list, so they look at
exactly the same windows. `Lines.HasFourInRow` gives an independent
definition of a win by explicit coordinates, and `CheckWinner` is proved
equal to it.

Three behaviours of the code that differ from what a reader might expect,
all modelled as the code has them:

- A move into a full column is not an error. The grid stays as it is and the
  turn still passes.
- `expand` appends a child for every legal move on every call. It does not
  add only "untried" moves.
- `get_score` has a separate full-board branch, but that branch also returns
  0.

## Model

| member | source | states |
|---|---|---|
| Board.Opponent | Game.py:76 | the player after `p` is never empty and never `p` itself, so X and O alternate |
| Board.LegalMovesFrom | Game.py:63-68 | the open columns from `col` on: exactly those whose top cell is empty, strictly ascending |
| Board.LegalMoves | Game.py:63-68 | a column is listed iff it is in 0..6 and its row-0 cell is empty; the list is strictly ascending (no duplicates) and in range |
| Board.FindEmptyUpFrom | Game.py:72-75 | the bottom-up scan finds the largest empty row at or above `row`, or reports that none of those rows is empty |
| Board.DropRow | Game.py:72-75 | there is no landing row iff the column is full; otherwise it is the unique largest empty row index of the column |
| Board.MakeMove | Game.py:71-76 | the turn toggles; a full column leaves the grid unchanged; otherwise the mover's piece goes in the largest empty row of the column and every other cell is unchanged |
| Board.Copy | Game.py:111-112 | the row-by-row copy equals the original state, and as a value no later move can disturb the original |
| Board.Pieces | Game.py:108 | the row-major cell list contains exactly the cells of the grid |
| Board.IsBoardFull | Game.py:107-108 | true iff no cell of the grid is empty |
| Board.LegalMovesFromCount | Game.py:63-68 | the open columns from `col` on are listed once each: the list is as long as the set of open columns |
| Board.LegalMovesCount | Game.py:63-68 | there are exactly as many legal moves as open columns |
| Board.FullBoardHasNoLegalMoves | Game.py:107-108 | a full board has no legal moves |
| Board.LegalMovePlacesPiece | Game.py:71-75 | a move into a listed column always finds a landing row and fills it with the mover's piece |
| Board.MakeMoveKeepsSettled | Game.py:71-75 | gravity is preserved: if every piece rests on the bottom or on a piece, the same holds after a move |
| Board.SettledBelowOccupied | Game.py:71-75 | on a settled board everything below an occupied cell is occupied |
| Board.SettledDropRowIsLowestEmpty | Game.py:72-75 | on a settled board the landing row is the lowest empty cell: the column is empty from the top down to it |
| Board.SettledNoMovesIffFull | Game.py:63-68 | on a settled board, no legal moves iff the board is full |
| Lines.WindowsExact | Game.py:79-104 | the scanned windows are 69 on-grid windows, each once, and include every on-grid window of the four directions |
| Lines.AnyOwnedMeansSomeWindow | Game.py:79-104 | the short-circuit scan succeeds iff some window of the list is all `p` |
| Lines.CountOwnedBounds | Game.py:130-156 | the owned-window count is at most the number of windows, and positive iff the scan finds an owned window |
| Lines.OwnedWindowIsRun | Game.py:79-104 | an all-`p` scanned window is four `p` in a row, column or diagonal by coordinates |
| Lines.RunIsOwnedWindow | Game.py:79-104 | every four-in-a-row by coordinates is an all-`p` on-grid window |
| Lines.ScanFindsExactlyRuns | Game.py:79-104 | scanning the window list finds a win iff there are four `p` in a row by coordinates |
| Lines.CheckWinner | Game.py:79-104 | true iff the recorded current player has four in a row horizontally, vertically or on either diagonal |
| AStar.Heuristic | Game.py:130-156 | 10 times the number of windows owned by the recorded player; non-negative, a multiple of 10, at most 690, and positive iff CheckWinner holds |
| AStar.GetScore | Game.py:121-127 | +100 iff the recorded player has four in a row and is X; -100 iff that player has four in a row and is not X; 0 iff no four in a row (full board or not) |
| Mcts.NewNode | Game.py:14-19 | a new node holds the given state and parent, has no children, 0 wins and 0 visits |
| Mcts.NewTree | Game.py:14-19 | a new root node holds the given state, has no parent, no children, 0 wins and 0 visits, and forms a valid tree |
| Mcts.IsFullyExpanded | Game.py:22-23 | a node is fully expanded iff it has as many children as its grid has open columns |
| Mcts.Expand | Game.py:40-47 | appends one fresh child per legal move, in legal-move order, each holding the node's state with that move made and the node as parent; keeps the node's state, statistics and old children; changes no other node; returns a child of the node, or none iff it has no children |
| Mcts.ExpandKeepsValid | Game.py:40-46 | the grown arena still has parents before children and well-formed boards, and every listed child names the node listing it as its parent |
| Mcts.ExpandLeaf | Game.py:40-47 | expanding a childless node makes it fully expanded, with child j holding move j applied, and returns none iff there are no legal moves |
| Mcts.ExpandFullyExpandedIff | Game.py:22-23 | after an expansion the node counts as fully expanded iff it had no children before |
| Mcts.ExpandTwiceChild | Game.py:40-46 | expanding a childless node twice gives it 2n children for n legal moves, and its j-th and (n + j)-th children hold equal states |
| Mcts.Ancestors | Game.py:50-54 | the ancestor set contains the node, only smaller indices, and a root |
| Mcts.AncestorsClosedUpwards | Game.py:50-54 | the parent of an ancestor is an ancestor |
| Mcts.Backpropagate | Game.py:50-54 | the node and every ancestor get exactly +1 visit and +result wins; tree shape and all other nodes are unchanged |
| Mcts.AddNode | Game.py:302 | the playout node names its parent but is not listed among the parent's children; the rest of the arena is unchanged and it stays valid |
| Mcts.AddNodeKeepsVisitsFlowUp | Game.py:302 | adding the unvisited playout node keeps "a visited node's parent is visited" |
| Mcts.NewTreeVisitsFlowUp | Game.py:14-19 | a new tree has no visited node with an unvisited parent |
| Mcts.ExpandKeepsVisitsFlowUp | Game.py:40-47 | expansion keeps "a visited node's parent is visited" |
| Mcts.GrowKeepsVisitsFlowUp | Game.py:40-46 | appending unvisited nodes while old nodes keep their visits and parents preserves "a visited node's parent is visited" |
| Mcts.BackpropagateKeepsVisitsFlowUp | Game.py:50-54 | backpropagation keeps "a visited node's parent is visited" |
| Mcts.VisitsFlowUpAllowsSelection | Game.py:33 | in such trees an unvisited node has only unvisited children, so the logarithm of the parent's visits is never taken at 0 |
| Mcts.SelectChild | Game.py:26-37 | with exploration 0: none iff no child is visited; otherwise the first child in order whose wins/visits is maximal among visited children |
| Scenarios.RunOfThreeIsNoWin | Game.py:79-104 | three X in a row on the bottom row is no win for X |
| Scenarios.RunOfFourIsWin | Game.py:81-85 | four X in a row on the bottom row is a win for X |
| Scenarios.RunOfFiveIsWin | Game.py:81-85 | five X in a row on the bottom row is a win for X |
| Scenarios.WinIsCheckedForRecordedPlayer | Game.py:79-104 | an X run is not a win when O is the recorded player |
| Scenarios.AllOpenFrom | Game.py:63-68 | when every top cell is empty, the open columns from `col` on are `col`, `col + 1`, ..., 6 |
| Scenarios.OpenTopRowAllMoves | Game.py:63-68 | when no column is full, the legal moves are exactly 0, 1, ..., 6 in that order |
| Scenarios.EmptyBoardLegalMoves | Game.py:63-68 | every column is legal on the empty board, in order 0..6 |
| Scenarios.DetachedPlayoutNodeAllowed | Game.py:301-303 | a root with a playout node that names it as parent but is not among its children is a valid arena |
| Scenarios.OpeningMove | Game.py:71-76 | the first piece lands on the bottom row and the turn passes to O |

## Left out

- The GUI class and `main` (Game.py:176-393) are tkinter rendering and event handling. This includes the GUI's own copies of win and full-board detection and the bottom-row placement after an A* move.
- `make_computer_move` (the MCTS driver loop) is left out. Its rollouts are driven by `random.choice`, which cannot be stated as a contract. Its building blocks (`Expand`, `Backpropagate`, `SelectChild`, and `AddNode` for the playout node of Game.py:302) are modelled. The arena therefore allows a node that names a parent without being listed among that parent's children, as Game.py:302 creates one.
- Mcts.AddNode: stores the playout state as a value. In the code the new node shares the playout's `GameState` object, and the playout moves that follow then change that node's state too; this aliasing is not modelled.
- `AStar.get_best_move` is left out. `min(frontier)` never removes the entry it picks, so the loop makes no progress. Equal priorities make the tuple comparison fall through to `GameState` objects, which have no ordering. The fallback is `random.choice`.
- The `AStar` constructor's `board` field is left out. It is stored but never read by the modelled operations.
- The UCT exploration term of `select_child` (Game.py:33) is left out. Only exploration factor 0 is modelled, since the term uses floating `math.sqrt` and `math.log`.
- `Expand`'s random pick is left out. The pick becomes a parameter `pick`, and `Expand` returns child `pick mod n`; the contract only says the result is some child of the node, or none.
- Mcts.SelectChild: compares wins/visits as exact rationals (`real`) rather than Python floats.
- Mcts.SelectChild: requires that an unvisited node has no visited child. In Python, `math.log(0)` raises `ValueError` when the loop reaches a visited child of an unvisited parent, and that error path is not modelled. `VisitsFlowUpAllowsSelection` and the invariant lemmas show that trees built by `Expand`, `AddNode` and `Backpropagate` never reach it.
- Board.MakeMove: requires a column in 0..6. Python's negative indexing and its `IndexError` for columns of 7 and above are not modelled; callers only pass listed legal moves.
- Mcts.Backpropagate: the result may be any integer. The game only passes 0 or 1.
- Board.Opponent: when the recorded player is empty, the next player is O (as in the code). The contract only says the result is X or O and differs from the input.
