# Othello engine, modelled in Dafny

This project models the game engine of a one-player-against-the-computer
Othello program (`othello.py`). The engine has the following parts:

- the 8x8 board of empty cells and X and O discs, with its opening position;
- the legality check for a move;
- move application, which places a disc and flips discs in place;
- disc counting and the end-of-game test;
- the switch of the side to move;
- the computer's move choice. It runs a depth-5 alpha-beta minimax over the
  row-major scan of the board.

The model is split into five modules:

- `Board` (board.dfy) holds the board as a value (`seq<seq<Cell>>`, 8x8).
  It defines the ray walk shared by the legality check and the flipping
  (`Walk`), the board after a move (`AfterMove`), counting (`Count`),
  `GameOver` and `Switch`. The lemmas here state what these mean.
- `Grid` (grid.dfy) holds the board as the program holds it, a mutable
  `array2<Cell>`. It has the set-up, the legality check with its stepping
  loop, and move application with its direction loop and in-place flipping
  loop. Each method is proved against the value model.
- `Search` (search.dfy) holds the search as values. It has the score type
  `NegInf | Fin(n) | PosInf` for the program's `±inf` sentinels, and
  Python's `max`/`min`, which keep the first argument on ties. The minimax
  value (`MinimaxValue`, `Scan`) can end in a `KeyError`. The move picker's
  value is `CpuScan` / `CpuChoice`.
- `Engine` (engine.dfy) holds the search as the program runs it. `Minimax`
  places a trial disc on the shared array, recurses and resets the cell.
  `GetCpuMove` searches a copy of the board for each candidate. Both are
  proved equal to their value counterparts.
- `Scenarios` (scenarios.dfy) checks concrete positions: the opening board,
  the cells X may play there, and X's move at (2, 3).

The model follows the code as written, including where it differs from
textbook Othello:

- The legality check accepts a cell when, in some direction, a run of
  non-empty cells that are not the player's discs ends at one of the
  player's discs. The run may be empty. So a cell next to one's own disc is
  legal, and on the opening board X has ten legal cells, not four
  (`Scenarios.OpeningLegalCells`). Textbook Othello asks for at least one
  opponent disc in between; the code does not.
- During the search a trial move places one disc, flips nothing, and then
  resets that cell. Textbook search would apply the full move. When it does
  not fail, the search leaves the board exactly as it found it.
- A full board scores the winner's disc count, whichever side is to move.
  A drawn full board makes the search fail with a `KeyError`, because the
  score table has entries only for X and O. The model carries this failure
  as `Result.KeyError` up to the move picker.
- The cut-off leaves only the column loop; the search goes on with the next
  row, keeping the narrowed window.
- The move picker returns None when no cell is legal, and also when every
  candidate scores −∞.

## Model

| member | source | states |
|---|---|---|
| `Board.InitialBoard` | othello.py:3-6 | the opening board has O on (3,3) and (4,4), X on (3,4) and (4,3), and every other cell empty |
| `Grid.CreateBoard` | othello.py:3-6 | returns a fresh 8x8 array holding the opening board |
| `Scenarios.OpeningCounts` | othello.py:3-6 | the opening board holds 2 X, 2 O and 60 empty cells, and the game is not over |
| `Board.Switch` | othello.py:56-57 | the opponent of a side is the other side |
| `Board.SwitchInvolutive` | othello.py:56-57 | switching twice gives back the same side |
| `Board.Walk` | othello.py:24-32 | the recursive ray walk of both stepping loops; characterised by `Board.WalkBracketed` |
| `Board.WalkBracketed` | othello.py:24-32 | the walk from the first neighbour finds n cells exactly when cells 1..n along the ray hold discs that are not p and cell n+1 holds p, all on the board |
| `Board.ValidMove` | othello.py:17-34 | the legality check as a predicate; characterised by `Board.ValidMoveIff` |
| `Board.ValidMoveIff` | othello.py:17-34 | a move is legal iff the cell is empty and, in one of the eight directions, a run of zero or more non-empty non-player cells is closed on the board by a player disc |
| `Grid.IsValidMove` | othello.py:17-34 | the array version returns exactly the legality predicate on the array's board |
| `Grid.WalkRun` | othello.py:24-32 | the stepping loop stops with closed=true exactly when the walk meets the player's disc, and then temp lists the run's cells in order |
| `Scenarios.OpeningLegalCells` | othello.py:17-34 | on the opening board X is legal at exactly (2,3), (2,4), (2,5), (3,2), (3,5), (4,2), (4,5), (5,2), (5,3), (5,4) |
| `Board.AfterMove` | othello.py:36-51 | the board after `make_move`; characterised cell by cell by `Board.AfterMoveCells` and by count by `Board.MoveCounts` |
| `Board.AfterMoveCells` | othello.py:36-51 | after a move the placed cell holds p; any other cell becomes p exactly when it is captured on a ray, in which case it held the opponent; every other cell, empty or p's own, is unchanged |
| `Board.MoveCounts` | othello.py:36-51 | on an empty target cell, p gains 1 plus the flipped discs, the opponent loses the flipped discs, and X+O grows by exactly 1 |
| `Grid.MakeMove` | othello.py:36-51 | the array afterwards holds the board after the move, computed from the board before |
| `Grid.FlipDirection` | othello.py:40-51 | one pass of the direction loop adds exactly the flips of that direction to the board built so far |
| `Grid.FlipRun` | othello.py:47-48 | every cell listed in temp becomes the player's disc and no other cell changes |
| `Scenarios.OpeningMoveAt23` | othello.py:36-51 | X at (2,3) on the opening board flips (3,3) but not (4,4), giving X=4 and O=1 |
| `Board.Count` | othello.py:53-54 | a disc count is at most 64 |
| `Board.CountPartition` | othello.py:53-54 | X discs + O discs + empty cells = 64 |
| `Board.GameOver` | othello.py:128-140 | the result is present iff no cell is empty; it is X or O for the side with strictly more discs, and Draw when the counts are equal |
| `Board.Place` | othello.py:103 | the trial placement (also line 118): the placed cell holds the given value and every other cell is unchanged |
| `Board.PlaceFillsOne` | othello.py:103 | placing a trial disc on an empty cell leaves one empty cell fewer, so the search terminates |
| `Search.Max` | othello.py:106-107 | the maximum is at least each argument and is one of them |
| `Search.Min` | othello.py:121-122 | the minimum is at most each argument and is one of them |
| `Search.MinimaxValue` | othello.py:88-126 | every finite search value is a disc count between 0 and 64 |
| `Search.Scan` | othello.py:98-126 | every finite value of the nested cell loops lies between 0 and 64 |
| `Search.MinimaxWon` | othello.py:89-93 | on a full board with a winner the search returns the winner's disc count |
| `Search.MinimaxDrawFails` | othello.py:89-93 | on a full drawn board the search fails with KeyError |
| `Search.MinimaxHorizon` | othello.py:95-96 | at depth 5 on a board that is not full the search returns the count of the side to move |
| `Search.MinimaxNoMove` | othello.py:98-126 | before the horizon, a non-full board with no legal cell scores −∞ when maximizing and +∞ when minimizing |
| `Search.CandidateScore` | othello.py:78-80 | a candidate's score, minimax on the moved copy with the opponent minimizing, is finite only within 0..64 |
| `Search.CpuScan` | othello.py:75-84 | the picker's loops from a cell on; characterised by `Search.CpuScanPicks` |
| `Search.CpuChoice` | othello.py:71-86 | the picker's result on a board; characterised by `Search.CpuChoiceSpec` |
| `Search.CpuScanPicks` | othello.py:75-84 | when no search fails, the picker keeps its start move unless a later candidate scores strictly higher; then it keeps the first such candidate with the greatest score |
| `Search.CpuChoiceSpec` | othello.py:71-86 | the choice fails iff some candidate's search fails; it is None iff every candidate scores −∞; otherwise it is an empty, legal cell whose score is above −∞, strictly above every earlier candidate's and at least every later one's |
| `Engine.Minimax` | othello.py:88-126 | the search on the array returns the minimax value of the board it was given and, when it succeeds, leaves the array exactly as it found it |
| `Engine.SearchCells` | othello.py:98-126 | the row loop yields the scan's value from the initial sentinel and restores the board on success |
| `Engine.SearchRow` | othello.py:100-124 | one pass of the column loop, cut-off included, advances the scan to the next row with the updated best value and window |
| `Engine.TryCell` | othello.py:103-120 | a trial puts the disc on the cell, searches the placed board one level deeper, and resets the cell on success |
| `Grid.CopyBoard` | othello.py:78 | the copy is a fresh array holding the same board |
| `Engine.GetCpuMove` | othello.py:71-86 | the picker returns exactly the value-level choice on the board, and it does not modify the board |
| `Engine.CpuRow` | othello.py:76-84 | one pass of the picker's column loop advances its scan to the next row |

## Left out

- `print_board` (othello.py:8-15) and `get_user_move` (othello.py:59-69):
  console output, and reading a move with a retry on a ValueError. These are
  pure I/O.
- `main` (othello.py:142-176), the interactive turn loop, is not modelled.
  It has three quirks: it declares a draw whenever the board is full, it
  passes only when the side to move has no discs at all, and it unpacks a
  CPU move that may be None.
- Indices outside 0..7: NumPy wraps indices from -8 to -1 around to the
  other edge and raises IndexError for indices of 8 or more. Every operation
  requires `0 <= row, col < 8`, as the input reader guarantees.
- A side other than X and O: `Player` admits only the two sides, so the
  Python behaviour for any other string is not modelled.
- The search's `±inf` floats appear only as the sentinels `NegInf` and
  `PosInf`. All finite scores are disc counts.
- The search stops because every trial fills an empty cell. The depth counter
  is modelled but is not used as the termination measure.
- Engine.Minimax: when a drawn full board makes the search fail, the trial
  discs above it are never reset. The contract then states only that every
  disc of the original board is still in place, not which trial discs remain.
- The opening-board choice of the computer's move (a full depth-5 search)
  is not evaluated for a concrete position. Its properties are stated for
  all boards by `Search.CpuChoiceSpec`.
