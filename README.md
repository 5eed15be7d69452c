# Tic-tac-toe engine: board, players and game controller

This project models the core of a tic-tac-toe program with several kinds of
player. It covers four parts of the `tic_tac_toe` package.

- **Board** (`board.dfy`, module `Board`): the 3x3 board object,
  `TicTacToeBoard`, kept in an `array2<Cell>`.
  - `make_move`, `reset_board` and `available_moves` change or read that
    array step by step, so they are methods.
  - The same operations are also specified as functions over a grid value:
    the nine cells in row-major order. These are `Place`, `Available`,
    `CheckWin` and `CheckDraw`.
- **Players** (`players.dfy`, module `Players`): the four kinds of player.
  - The human player never answers `get_move`.
  - The default opponent plays a winning cell, else a blocking cell, else
    any empty cell.
  - The AI player runs full minimax. The alpha-beta player runs minimax
    with alpha-beta pruning.
  - Every search writes markers into the shared board array and clears them
    again. Each search method is proved to leave the array as it found it.
  - `Minimax` is proved to compute the pure game-tree value `Value`, and
    both AI `get_move` methods to return the move `BestMove` that it
    determines. `MinimaxAB` honours the window (alpha, beta) against
    `Value`, and equals `Value` for the full window. The default
    opponent's loops are proved to return `FirstWinningCell`, the first
    empty cell that completes a line.
- **Game** (`game.dfy`, module `Game`): the controller, `TicTacToeGame`.
  - It is a class with the source's fields.
  - Its invariant `Valid`: while the game runs, nobody has won and some cell
    is empty. Once it is over, `winner` is what `check_win` reports, and no
    winner means a draw.
  - `play_turn` and `auto_move` keep that invariant. They also record the
    outcome of each move: the mover wins, it is a draw, or the turn passes.
- **Metrics** (`metrics.dfy`, module `Metrics`): the loop of
  `simulate_game`. With two non-human players it ends after at most nine
  moves, and it reports the final grid's winner or a draw.

Both AI players' `get_move` are proved to return `BestMove(g, me)`. So they
return the same move on every board. `BestMoveSpec` states what that move
is:
- `None` exactly on a full board;
- otherwise an empty cell of greatest minimax value;
- when several cells share that value, the first of them in row-major
  order.

`MinimaxAB` satisfies the fail-soft window property for every window
`alpha < beta`. With the full window it returns exactly the minimax value.

Some things in the source are kept outside the model, described here:
- The source's `-float('inf')` and `float('inf')` sentinels are the
  integers `-2` and `2`. Every real score lies in `-1..1`, so every
  comparison comes out the same.
- `random.choice` in `DefaultOpponent.get_move` is a nondeterministic pick
  among the empty cells.
- Markers are the two values `X` and `O` of the `Cell` datatype. The empty
  string `''` is `Empty`.

## Model

| member | source | states |
|---|---|---|
| `Board.Place` | tic_tac_toe/board.py:11 | Writing x into cell mv makes that cell x and leaves every other cell as it was. |
| `Board.Other` | tic_tac_toe/players.py:24 | The opponent's marker, `'O' if marker == 'X' else 'X'`, is never the player's own marker. |
| `Board.PlaceUndo` | tic_tac_toe/players.py:32-34 | Writing a marker into an empty cell and clearing it again gives back exactly the original grid. |
| `Board.AvailablePrefix` | tic_tac_toe/board.py:19-23 | What the nested loops have appended after visiting the first k cells in row-major order: the earlier prefix, plus cell k-1 when it is empty; at most k moves. |
| `Board.AvailablePrefixSpec` | tic_tac_toe/board.py:19-23 | After the loops have visited the first k cells, the list holds exactly the empty cells of position below k, each once, in increasing row-major position. |
| `Board.Available` | tic_tac_toe/board.py:18-24 | available_moves as a function of the grid: the prefix after all nine cells. Its contract gives at most nine moves, every one an empty cell; AvailableSpec proves the converse and the order. |
| `Board.AvailableSpec` | tic_tac_toe/board.py:18-24 | A move is in the legal-move list if and only if its cell is empty, and the list is strictly increasing in row-major order. |
| `Board.AvailableOrder` | tic_tac_toe/board.py:20-23 | The order of two moves in the list is the row-major order of their cells, in both directions. |
| `Board.FreshBoardMoves` | tic_tac_toe/board.py:18-24 | On an empty board the legal moves are the nine cells (0,0), (0,1), ..., (2,2) in that order. |
| `Board.FreshBoardOpen` | tic_tac_toe/board.py:5-7 | An empty board has no winner, is not a draw and offers nine moves. |
| `Board.PlaceShrinks` | tic_tac_toe/board.py:9-13 | Placing a marker on an empty cell removes exactly one legal move. |
| `Board.ScanLines` | tic_tac_toe/board.py:28-43 | The scan of lines k..7 in check_win's order (rows, columns, main diagonal, anti-diagonal): the owner of the first complete line, else None. ScanLinesSpec characterises it. |
| `Board.CheckWin` | tic_tac_toe/board.py:26-43 | check_win is the scan from the first row. CheckWinFirstLine and CheckWinSound state what it reports. |
| `Board.ScanLinesSpec` | tic_tac_toe/board.py:28-43 | The scan from line k finds nothing if and only if none of lines k..7 is complete; otherwise it reports the owner of the first complete line from k on. |
| `Board.CheckWinFirstLine` | tic_tac_toe/board.py:26-43 | check_win reports the owner of the first complete line in scan order (rows, columns, main diagonal, anti-diagonal), and None exactly when no line is complete. |
| `Board.HasLineIffComplete` | tic_tac_toe/board.py:28-41 | A marker owns one of the eight scanned lines if and only if it fills a row, a column or a diagonal, as in the cell-by-cell reference definition. |
| `Board.CheckWinSound` | tic_tac_toe/board.py:26-43 | check_win is sound and complete with respect to the reference definition: a reported marker owns a line, and None means that neither marker owns one. |
| `Board.CheckDraw` | tic_tac_toe/board.py:45-47 | check_draw as written: no winner and an empty legal-move list. DrawOrWin characterises it by cells. |
| `Board.DrawOrWin` | tic_tac_toe/board.py:45-47 | check_draw holds exactly when neither marker owns a line and every cell is filled; a draw and a winner exclude each other; a full board is one of the two. |
| `Board.NewWinIsMover` | tic_tac_toe/game.py:30-34 | On a board without a winner, a move can only produce a win for the player who made it. |
| `Board.TicTacToeBoard.constructor` | tic_tac_toe/board.py:2-3 | A new board is a fresh 3x3 array whose grid is all empty. |
| `Board.TicTacToeBoard.ResetBoard` | tic_tac_toe/board.py:5-7 | reset_board binds a fresh 3x3 array whose grid is all empty. |
| `Board.TicTacToeBoard.SetCell` | tic_tac_toe/players.py:32 | The raw write board[row][col] = x changes the grid to Place(old grid, (row, col), x) and nothing else. |
| `Board.TicTacToeBoard.IsValidMove` | tic_tac_toe/board.py:15-16 | A move is valid if and only if it is in the legal-move list of the current grid. |
| `Board.TicTacToeBoard.MakeMove` | tic_tac_toe/board.py:9-13 | make_move reports true if and only if the target cell was empty. Then it places the marker there; otherwise the grid is unchanged. |
| `Board.TicTacToeBoard.AvailableMoves` | tic_tac_toe/board.py:18-24 | The nested loops return exactly the legal-move list of the current grid, leaving the board unchanged. |
| `Players.LeafScore` | tic_tac_toe/players.py:41-47 | The leaf test gives no score exactly when nobody has won and some cell is empty, that is, exactly when the search goes on. |
| `Players.Mover` | tic_tac_toe/players.py:53 | The marker placed at a node: the player's own at a maximizing node, the opponent's at a minimizing one (players.py:62). |
| `Players.Honours` | tic_tac_toe/players.py:117-149 | The fail-soft window relation between a position's value v and a returned score s: s is v strictly inside (alpha, beta), and on v's side of the window otherwise. |
| `Players.Value` | tic_tac_toe/players.py:40-66 | The minimax value of every position is 1, 0 or -1. |
| `Players.Children` | tic_tac_toe/players.py:49-66 | The running best_score is the sentinel before the first child, and a score in -1..1 after it. |
| `Players.ChildValue` | tic_tac_toe/players.py:51-55 | The value of the child reached by placing the node's marker on the i-th legal move, with the other side to move; it lies in -1..1. |
| `Players.MoveValue` | tic_tac_toe/players.py:32-33 | The root score of a move: the player's marker placed there, then the opponent to move; it lies in -1..1. |
| `Players.ChildrenBound` | tic_tac_toe/players.py:56 | A maximizing node's result is at least every child's value; a minimizing node's result is at most every child's value. |
| `Players.MinimaxChild` | tic_tac_toe/players.py:51-55 | Placing the node's marker on the i-th legal move, searching and clearing returns that child's value and restores the board. |
| `Players.Minimax` | tic_tac_toe/players.py:40-66 | minimax returns the game-tree value of the position and leaves the board as it found it. |
| `Players.AlphaBetaChild` | tic_tac_toe/players.py:128-132 | The place/search/clear step of minimax_ab returns a score in -1..1 that honours the window for the i-th child's value, and restores the board. |
| `Players.MaxStep` | tic_tac_toe/players.py:133-136 | One child of a maximizing node keeps the loop's agreement with the running maximum while alpha stays below beta; once beta <= alpha, both the child's value and the score are at least beta. |
| `Players.MinStep` | tic_tac_toe/players.py:145-148 | The mirror image of MaxStep for a minimizing node: once beta <= alpha, both the child's value and the score are at most alpha. |
| `Players.MaxNodeAB` | tic_tac_toe/players.py:126-137 | The maximizing branch, with its cut-off, returns a score in -1..1 that honours the window for the node's true maximum, and restores the board. |
| `Players.MinNodeAB` | tic_tac_toe/players.py:138-149 | The minimizing branch, with its cut-off, returns a score in -1..1 that honours the window for the node's true minimum, and restores the board. |
| `Players.MinimaxAB` | tic_tac_toe/players.py:117-149 | minimax_ab returns the true value when it lies strictly inside (alpha, beta), and otherwise a score on the same side of the window. With the full window it returns the minimax value. It restores the board. |
| `Players.Scores` | tic_tac_toe/players.py:30-33 | The children's values, one per legal move in list order: as many as legal moves, the i-th being ChildValue of the i-th move. |
| `Players.Pick` | tic_tac_toe/players.py:28-37 | The (best_move, best_score) pair after the first k moves, replacing the best only on a strictly greater score. PickFirstMax characterises it. |
| `Players.RootChoice` | tic_tac_toe/players.py:28-37 | The root loop's pair after the first k legal moves of the grid, each scored by its child's value. |
| `Players.BestMove` | tic_tac_toe/players.py:27-38 | The move AIPlayer.get_move returns: the move of the pair after all legal moves. BestMoveSpec states what it is. |
| `Players.FirstMax` | tic_tac_toe/players.py:35-37 | The position of the best score among the first k scores under the strict `>` rule; it is one of those k positions. FirstMaxSpec characterises it. |
| `Players.RootIndex` | tic_tac_toe/players.py:27-38 | The position, in the legal-move list, of the move the root loop keeps after the first k moves. |
| `Players.FirstMaxSpec` | tic_tac_toe/players.py:35-37 | Replacing the best only on a strictly greater score keeps a greatest score, and every earlier score is strictly smaller. |
| `Players.PickFirstMax` | tic_tac_toe/players.py:28-37 | The (best_move, best_score) pair is (None, -inf) before any move, and afterwards the first move of greatest score with that score. |
| `Players.RootIndexScore` | tic_tac_toe/players.py:27-38 | The score the root loop keeps is the maximizing node's running best_score over the same children. |
| `Players.BestMoveSpec` | tic_tac_toe/players.py:27-38 | The AI's move is None exactly on a full board; otherwise an empty cell of greatest value, and the first such cell in row-major order; on an unfinished board that value is the position's value. |
| `Players.MinimaxGetMove` | tic_tac_toe/players.py:27-38 | AIPlayer.get_move returns BestMove of the board and leaves the board as it found it. |
| `Players.AlphaBetaGetMove` | tic_tac_toe/players.py:101-115 | AlphaBetaAIPlayer.get_move returns the same BestMove as AIPlayer.get_move and leaves the board as it found it. |
| `Players.Completes` | tic_tac_toe/players.py:76-77 | Placing m on mv makes check_win report m. |
| `Players.Wins` | tic_tac_toe/players.py:74-80 | For each legal move in list order, whether it completes a line for m: as many entries as legal moves, the i-th being Completes of the i-th move. |
| `Players.FirstTrue` | tic_tac_toe/players.py:74-80 | The first position from k on that holds, if any; it lies between k and the end. FirstTrueSpec characterises it. |
| `Players.FirstTrueSpec` | tic_tac_toe/players.py:74-80 | The scan finds nothing from k on if and only if no position from k on holds; otherwise it finds the first position that does. |
| `Players.FirstWinningCell` | tic_tac_toe/players.py:74-90 | The first legal move, in row-major order, that completes a line for m, or None: the answer of each of the two loops of DefaultOpponent.get_move. FirstWinningCellSpec characterises it. |
| `Players.FirstWinningCellSpec` | tic_tac_toe/players.py:74-80 | The first winning cell is None exactly when no empty cell completes a line for the marker; otherwise it is an empty cell that does, and no earlier empty cell does. |
| `Players.TryCompletes` | tic_tac_toe/players.py:75-80 | Trying a cell reports whether placing the marker there makes check_win report that marker, and restores the board. |
| `Players.FindCompleting` | tic_tac_toe/players.py:74-80 | The loop returns the first empty cell, in row-major order, that completes a line for the marker, or None; the board is restored. |
| `Players.DefaultGetMove` | tic_tac_toe/players.py:72-93 | DefaultOpponent.get_move returns an empty cell: the first winning cell if there is one, else the first blocking cell if there is one, else any empty cell. The board is left unchanged. |
| `Players.HumanGetMove` | tic_tac_toe/players.py:16-18 | A human player's get_move returns None. |
| `Players.DefaultChoice` | tic_tac_toe/players.py:72-93 | The moves DefaultOpponent.get_move may return: an empty cell, the first winning cell when there is one, otherwise the first blocking cell when there is one. |
| `Players.Chooses` | tic_tac_toe/players.py:8-10 | The moves each kind of player may return: none for a human, DefaultChoice for the default opponent, BestMove for both AI players. |
| `Players.GetMove` | tic_tac_toe/players.py:8-10 | get_move answers None exactly for a human or on a full board; otherwise a legal move of the kind that player chooses; the board is unchanged. |
| `Game.TicTacToeGame.constructor` | tic_tac_toe/game.py:5-10 | A new game holds the two players, an empty board, turn index 0, not over, no winner, and satisfies the invariant. |
| `Game.TicTacToeGame.ResetGame` | tic_tac_toe/game.py:12-16 | reset_game restores the fresh state with an empty board and keeps the invariant. |
| `Game.TicTacToeGame.CurrentPlayer` | tic_tac_toe/game.py:18-19 | The current player is one of the two players: the first at index 0, the second at index 1. |
| `Game.TicTacToeGame.SwitchPlayer` | tic_tac_toe/game.py:21-22 | switch_player flips the turn index between 0 and 1 and changes nothing else. |
| `Game.TicTacToeGame.Valid` | tic_tac_toe/game.py:24-59 | The controller's invariant: two players, index 0 or 1; while running, no winner and some empty cell; once over, winner is check_win's answer and no winner means a draw. |
| `Game.TicTacToeGame.TurnOutcome` | tic_tac_toe/game.py:31-39 | What follows a move: a win ends the game with the mover as winner, a draw ends it with no winner, and otherwise the turn passes to the other index. |
| `Game.TicTacToeGame.PlayTurn` | tic_tac_toe/game.py:24-40 | Once the game is over, or on a taken cell, nothing changes. Otherwise the mover's marker is placed: a win ends the game with the mover as winner, a full board ends it as a draw, and any other move passes the turn. The invariant is kept. |
| `Game.TicTacToeGame.AutoMove` | tic_tac_toe/game.py:42-59 | Once the game is over, or for a human, nothing changes. Otherwise the player's own choice is placed, one cell fewer is empty, the outcome is recorded as in play_turn, and the invariant is kept. |
| `Metrics.SimulateGame` | tic_tac_toe/metrics.py:5-12 | Two non-human players finish a game within one to nine moves. The result is the final grid's check_win, and no winner means a draw. |

## Left out

- `gui.py` and `main.py`: the Tkinter user interface and the entry point.
  They are input and output around the game.
- `metrics.py` beyond `simulate_game` (`simulate_batch` and the report):
  random ordering of the players, statistics over many games and printing.
- `TicTacToeBoard.__str__` (`board.py:49-54`): display only.
- The `Player` base class and its subclasses become the `Player` datatype
  with a `Strategy` tag. `GetMove` dispatches on that tag where the source
  dispatches by overriding. The players' `algorithm` attributes are
  descriptive strings that none of the modelled code reads.
- Coordinates outside 0..2: every coordinate is an `Index`. The source does
  no bounds check, so Python's negative indexing and `IndexError` are not
  modelled.
- `Players.DefaultGetMove`: it requires a board with an empty cell. On a
  full board the source's `random.choice` of an empty list raises an
  exception, and this exception path is not modelled. The controller never
  asks on a full board, because a running game always has an empty cell.
- `Players.DefaultGetMove`: the random pick is a nondeterministic choice
  among the empty cells. The model promises only that the cell is empty,
  not any distribution.
- `Players.Minimax`: the source's two loops, maximizing and minimizing, are
  one loop here. It places `Mover(me, maximizing)` and keeps the maximum or
  the minimum accordingly, with the same moves in the same order.
- `Players.MinimaxChild`, `Players.AlphaBetaChild` and
  `Players.TryCompletes` factor out the source's inline place/search/clear
  lines as helper methods. Each has the same effect as those lines.
- The board array is read as a 9-cell row-major grid value (`Cells`). The
  rows are not separate objects, so a caller keeping a reference to one old
  row list, which `reset_board` rebinds, is not modelled.
- `Game.TicTacToeGame.AutoMove` ignores the Boolean that `make_move`
  returns, as the source does. Every player's move is an empty cell, so the
  write always takes place.
- A proof that `AlphaBetaGetMove` and `MinimaxGetMove` agree is not a
  separate lemma: lemmas cannot call methods. The agreement follows because
  both methods ensure `move == BestMove(old grid, me)`.
- `Metrics.SimulateGame`: it requires two non-human players. With a human
  player `auto_move` changes nothing, so the source's loop at
  `metrics.py:9-11` never ends. The model does not state that
  non-termination; it covers only the games that end.
