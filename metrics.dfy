/** simulate_game: two non-human players play one game from a fresh board
    by repeated auto_move. */
module Metrics {
  import opened Board
  import opened Players
  import opened Game

  /** The loop of simulate_game. Every auto_move of a non-human player
      fills one cell, so the game is over after at most nine of them;
      moves counts the filled cells of the final grid, and the result is
      that grid's winner, or a draw. */
  method SimulateGame(player1: Player, player2: Player) returns (winner: Option<Marker>, moves: nat, ghost final: Grid)
    requires player1.strategy != Human && player2.strategy != Human
    ensures 1 <= moves <= 9
    ensures moves == 9 - |Available(final)|
    ensures winner == CheckWin(final)
    ensures winner == None ==> CheckDraw(final)
  {
    var game := new TicTacToeGame(player1, player2);
    FreshBoardOpen();
    moves := 0;
    while !game.gameOver
      invariant fresh(game) && fresh(game.board) && fresh(game.board.board)
      invariant game.Valid() && game.players == [player1, player2]
      invariant moves + |Available(game.board.Cells())| == 9
      invariant moves == 0 ==> !game.gameOver
      decreases |Available(game.board.Cells())|
    {
      game.AutoMove();
      moves := moves + 1;
    }
    winner := game.winner;
    final := game.board.Cells();
  }
}
