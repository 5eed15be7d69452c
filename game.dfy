/** The game controller: two players take turns on one board until a line
    is completed or the board is full. */
module Game {
  import opened Board
  import opened Players

  class TicTacToeGame {
    const board: TicTacToeBoard
    const players: seq<Player>
    var currentPlayerIndex: int
    var gameOver: bool
    var winner: Option<Marker>

    /** The controller's invariant: two players and a turn index of 0 or 1;
        while the game runs nobody has won and some cell is empty; once it
        is over, winner is what check_win reports, and no winner means a
        draw. */
    ghost predicate Valid()
      reads this, board, board.board
    {
      board.Valid() && |players| == 2 && 0 <= currentPlayerIndex <= 1 &&
      (!gameOver ==> winner == None && CheckWin(board.Cells()) == None && Available(board.Cells()) != []) &&
      (gameOver ==> winner == CheckWin(board.Cells()) && (winner.Some? || CheckDraw(board.Cells())))
    }

    /** The state of a game about to start: an empty board, the first
        player to move, not over, no winner. */
    ghost predicate Fresh()
      reads this, board, board.board
      requires board.Valid()
    {
      board.Cells() == EmptyGrid && currentPlayerIndex == 0 && !gameOver && winner == None
    }

    /** What follows a move by mover that the index prevIndex held: a win
        ends the game with the mover as winner, a full board ends it as a
        draw, and otherwise the turn passes to the other player. */
    ghost predicate TurnOutcome(prevIndex: int, mover: Marker)
      reads this, board, board.board
      requires board.Valid()
    {
      (CheckWin(board.Cells()).Some? ==>
         gameOver && winner == Some(mover) && currentPlayerIndex == prevIndex) &&
      (CheckDraw(board.Cells()) ==>
         gameOver && winner == None && currentPlayerIndex == prevIndex) &&
      (CheckWin(board.Cells()) == None && !CheckDraw(board.Cells()) ==>
         !gameOver && winner == None && currentPlayerIndex == 1 - prevIndex)
    }

    constructor (player1: Player, player2: Player)
      ensures Valid() && Fresh()
      ensures players == [player1, player2]
      ensures fresh(board) && fresh(board.board)
    {
      board := new TicTacToeBoard();
      players := [player1, player2];
      currentPlayerIndex := 0;
      gameOver := false;
      winner := None;
      new;
      FreshBoardOpen();
    }

    /** reset_game: an empty board and the fresh state, with the same
        players. */
    method ResetGame()
      requires Valid()
      modifies this, board
      ensures Valid() && Fresh()
      ensures fresh(board.board)
    {
      board.ResetBoard();
      currentPlayerIndex := 0;
      gameOver := false;
      winner := None;
      FreshBoardOpen();
    }

    /** get_current_player: the player whose turn it is. */
    function CurrentPlayer(): (p: Player)
      reads this
      requires |players| == 2 && 0 <= currentPlayerIndex <= 1
      ensures p in players
      ensures p == (if currentPlayerIndex == 0 then players[0] else players[1])
    {
      players[currentPlayerIndex]
    }

    /** switch_player: the turn passes to the other player; nothing else
        changes. */
    method SwitchPlayer()
      requires 0 <= currentPlayerIndex <= 1
      modifies this
      ensures 0 <= currentPlayerIndex <= 1 && currentPlayerIndex != old(currentPlayerIndex)
      ensures currentPlayerIndex == 1 - old(currentPlayerIndex)
      ensures gameOver == old(gameOver) && winner == old(winner)
    {
      currentPlayerIndex := 1 - currentPlayerIndex;
    }

    /** play_turn: the current player claims (row, col). Nothing happens
        once the game is over or when the cell is taken; otherwise the
        marker is placed and the move's outcome recorded. */
    method PlayTurn(row: Index, col: Index)
      requires Valid()
      modifies this, board.board
      ensures Valid()
      ensures old(gameOver) || At(old(board.Cells()), Move(row, col)) != Empty ==>
                board.Cells() == old(board.Cells()) && gameOver == old(gameOver) &&
                winner == old(winner) && currentPlayerIndex == old(currentPlayerIndex)
      ensures !old(gameOver) && At(old(board.Cells()), Move(row, col)) == Empty ==>
                board.Cells() == Place(old(board.Cells()), Move(row, col), old(CurrentPlayer()).marker) &&
                TurnOutcome(old(currentPlayerIndex), old(CurrentPlayer()).marker)
    {
      if gameOver {
        return;
      }
      ghost var g := board.Cells();
      var current := CurrentPlayer();
      var ok := board.MakeMove(current.marker, row, col);
      if ok {
        NewWinIsMover(g, Move(row, col), current.marker);
        var w := CheckWin(board.Cells());
        if w.Some? {
          gameOver := true;
          winner := w;
        } else if CheckDraw(board.Cells()) {
          gameOver := true;
          winner := None;
        } else {
          SwitchPlayer();
        }
      }
    }

    /** auto_move: the current player is asked for a move. A human answers
        None and nothing happens; any other player answers with a legal
        move of its kind, which is placed, so one cell fewer is empty, and
        the outcome recorded as in PlayTurn. */
    method AutoMove()
      requires Valid()
      modifies this, board.board
      ensures Valid()
      ensures old(gameOver) || old(CurrentPlayer()).strategy == Human ==>
                board.Cells() == old(board.Cells()) && gameOver == old(gameOver) &&
                winner == old(winner) && currentPlayerIndex == old(currentPlayerIndex)
      ensures !old(gameOver) && old(CurrentPlayer()).strategy != Human ==>
                |Available(board.Cells())| == |Available(old(board.Cells()))| - 1 &&
                (exists mv :: Chooses(old(CurrentPlayer()), old(board.Cells()), mv) &&
                              board.Cells() == Place(old(board.Cells()), mv, old(CurrentPlayer()).marker)) &&
                TurnOutcome(old(currentPlayerIndex), old(CurrentPlayer()).marker)
    {
      if gameOver {
        return;
      }
      ghost var g := board.Cells();
      var current := CurrentPlayer();
      var move := GetMove(current, board);
      if move.Some? {
        var mv := move.value;
        AvailableSpec(g);
        PlaceShrinks(g, mv, current.marker);
        NewWinIsMover(g, mv, current.marker);
        var _ := board.MakeMove(current.marker, mv.row, mv.col);
        var w := CheckWin(board.Cells());
        if w.Some? {
          gameOver := true;
          winner := w;
        } else if CheckDraw(board.Cells()) {
          gameOver := true;
          winner := None;
        } else {
          SwitchPlayer();
        }
      }
    }
  }
}
