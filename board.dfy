/** The 3x3 tic-tac-toe board: cells and moves, the legal-move list, win and
    draw detection as functions over a grid value, and the mutable board
    object that the players and the game controller share. */
module Board {

  datatype Option<+T> = None | Some(value: T)

  /** A cell holds nothing, an X or an O (the source uses '', 'X' and 'O'). */
  datatype Cell = Empty | X | O

  /** A player's marker: a cell value other than Empty. */
  type Marker = c: Cell | c != Empty witness X

  /** The opponent's marker: O for X and X for O. */
  function Other(m: Marker): (r: Marker)
    ensures r != m
  {
    if m == X then O else X
  }

  /** A row or column number. The source does not check bounds, so every
      coordinate a caller passes is in range. */
  type Index = i: int | 0 <= i < 3

  datatype Move = Move(row: Index, col: Index)

  /** The nine cells of the board in row-major order: cell (row, col) is at
      position 3 * row + col. */
  type Grid = g: seq<Cell> | |g| == 9
    witness [Empty, Empty, Empty, Empty, Empty, Empty, Empty, Empty, Empty]

  /** The board that reset_board produces: every cell empty. */
  const EmptyGrid: Grid := seq(9, i => Empty)

  /** The nine cells in row-major order: the moves of a fresh board. */
  const AllMoves: seq<Move> := [Move(0, 0), Move(0, 1), Move(0, 2),
                                Move(1, 0), Move(1, 1), Move(1, 2),
                                Move(2, 0), Move(2, 1), Move(2, 2)]

  /** The position of a cell in row-major order. */
  function Rank(mv: Move): (k: int)
    ensures 0 <= k < 9
  {
    3 * mv.row + mv.col
  }

  function At(g: Grid, mv: Move): Cell
  {
    g[Rank(mv)]
  }

  /** The grid after writing x into cell mv, as the source's assignment
      board[row][col] = x does. */
  function Place(g: Grid, mv: Move, x: Cell): (r: Grid)
    ensures At(r, mv) == x
    ensures forall o :: o != mv ==> At(r, o) == At(g, o)
  {
    g[Rank(mv) := x]
  }

  /** The cell at position k in row-major order. */
  function MoveAt(k: int): (mv: Move)
    requires 0 <= k < 9
    ensures Rank(mv) == k
  {
    if k < 3 then Move(0, k) else if k < 6 then Move(1, k - 3) else Move(2, k - 6)
  }

  /** Distinct cells have distinct positions. */
  lemma RankInjective(a: Move, b: Move)
    requires Rank(a) == Rank(b)
    ensures a == b
  {
  }

  /** Two grids that agree on every cell are the same grid. */
  lemma GridExt(g: Grid, h: Grid)
    requires forall mv :: At(g, mv) == At(h, mv)
    ensures g == h
  {
    forall k | 0 <= k < 9
      ensures g[k] == h[k]
    {
      assert At(g, MoveAt(k)) == At(h, MoveAt(k));
    }
  }

  /** Writing a marker into an empty cell and then clearing it again gives
      back the very same grid: the place/undo step of every search. */
  lemma PlaceUndo(g: Grid, mv: Move, x: Cell)
    requires At(g, mv) == Empty
    ensures Place(Place(g, mv, x), mv, Empty) == g
  {
    GridExt(Place(Place(g, mv, x), mv, Empty), g);
  }

  /** The empty cells among the first k cells in row-major order, in that
      order: what the nested loops of available_moves have collected after
      k cells. */
  function AvailablePrefix(g: Grid, k: nat): (ms: seq<Move>)
    requires k <= 9
    ensures |ms| <= k
  {
    if k == 0 then []
    else AvailablePrefix(g, k - 1) + (if At(g, MoveAt(k - 1)) == Empty then [MoveAt(k - 1)] else [])
  }

  /** The prefix holds exactly the empty cells of position below k, each
      once and in increasing position. */
  lemma {:induction false} AvailablePrefixSpec(g: Grid, k: nat)
    requires k <= 9
    ensures |AvailablePrefix(g, k)| <= k
    ensures forall i :: 0 <= i < |AvailablePrefix(g, k)| ==>
              Rank(AvailablePrefix(g, k)[i]) < k && At(g, AvailablePrefix(g, k)[i]) == Empty
    ensures forall i, j :: 0 <= i < j < |AvailablePrefix(g, k)| ==>
              Rank(AvailablePrefix(g, k)[i]) < Rank(AvailablePrefix(g, k)[j])
    ensures forall mv :: Rank(mv) < k && At(g, mv) == Empty ==> mv in AvailablePrefix(g, k)
  {
    if k > 0 {
      AvailablePrefixSpec(g, k - 1);
      var p := AvailablePrefix(g, k - 1);
      var c := MoveAt(k - 1);
      var q := if At(g, c) == Empty then [c] else [];
      assert AvailablePrefix(g, k) == p + q;
      forall mv | Rank(mv) < k && At(g, mv) == Empty
        ensures mv in p + q
      {
        if Rank(mv) == k - 1 {
          RankInjective(mv, c);
          assert (p + q)[|p|] == mv;
        } else {
          assert mv in p;
        }
      }
    }
  }

  /** available_moves: the empty cells in row-major order. */
  function Available(g: Grid): (ms: seq<Move>)
    ensures |ms| <= 9
    ensures forall i :: 0 <= i < |ms| ==> At(g, ms[i]) == Empty
  {
    AvailablePrefixSpec(g, 9);
    AvailablePrefix(g, 9)
  }

  /** The legal moves are exactly the empty cells, in strictly increasing
      row-major order (so each appears once). */
  lemma AvailableSpec(g: Grid)
    ensures forall mv :: mv in Available(g) <==> At(g, mv) == Empty
    ensures forall i, j :: 0 <= i < j < |Available(g)| ==> Rank(Available(g)[i]) < Rank(Available(g)[j])
  {
    AvailablePrefixSpec(g, 9);
  }

  /** Positions in the legal-move list follow row-major order. */
  lemma AvailableOrder(g: Grid, i: int, j: int)
    requires 0 <= i < |Available(g)| && 0 <= j < |Available(g)|
    ensures Rank(Available(g)[i]) < Rank(Available(g)[j]) <==> i < j
  {
    AvailableSpec(g);
    if j < i {
      assert Rank(Available(g)[j]) < Rank(Available(g)[i]);
    }
  }

  /** AllMoves lists the cells by position. */
  lemma AllMovesAt(k: int)
    requires 0 <= k < 9
    ensures AllMoves[k] == MoveAt(k)
  {
    if k == 0 {} else if k == 1 {} else if k == 2 {} else if k == 3 {}
    else if k == 4 {} else if k == 5 {} else if k == 6 {} else if k == 7 {}
  }

  lemma {:induction false} FreshPrefix(g: Grid, k: nat)
    requires k <= 9
    requires forall i :: 0 <= i < 9 ==> g[i] == Empty
    ensures |AvailablePrefix(g, k)| == k
    ensures forall i :: 0 <= i < k ==> AvailablePrefix(g, k)[i] == MoveAt(i)
  {
    if k > 0 {
      FreshPrefix(g, k - 1);
    }
  }

  /** A fresh board offers the nine cells (0,0), (0,1), ..., (2,2) in
      row-major order. */
  lemma FreshBoardMoves()
    ensures Available(EmptyGrid) == AllMoves
  {
    FreshPrefix(EmptyGrid, 9);
    var ms := Available(EmptyGrid);
    forall i | 0 <= i < 9
      ensures ms[i] == AllMoves[i]
    {
      AllMovesAt(i);
    }
  }

  /** A fresh board is neither won nor drawn, and offers nine moves. */
  lemma FreshBoardOpen()
    ensures CheckWin(EmptyGrid) == None && !CheckDraw(EmptyGrid)
    ensures |Available(EmptyGrid)| == 9
  {
    FreshBoardMoves();
    CheckWinFirstLine(EmptyGrid);
  }

  lemma {:induction false} PlacePrefixCount(g: Grid, mv: Move, x: Cell, k: nat)
    requires k <= 9
    requires At(g, mv) == Empty && x != Empty
    ensures |AvailablePrefix(Place(g, mv, x), k)| == |AvailablePrefix(g, k)| - (if Rank(mv) < k then 1 else 0)
  {
    if k > 0 {
      PlacePrefixCount(g, mv, x, k - 1);
      var h := Place(g, mv, x);
      var c := MoveAt(k - 1);
      assert |AvailablePrefix(h, k)| == |AvailablePrefix(h, k - 1)| + (if At(h, c) == Empty then 1 else 0);
      assert |AvailablePrefix(g, k)| == |AvailablePrefix(g, k - 1)| + (if At(g, c) == Empty then 1 else 0);
      if c == mv {
        assert At(h, c) != Empty;
      } else {
        assert At(h, c) == At(g, c);
        if Rank(mv) == k - 1 {
          RankInjective(mv, c);
        }
      }
    }
  }

  /** Placing a marker on an empty cell removes exactly one legal move; this
      is why every search terminates. */
  lemma PlaceShrinks(g: Grid, mv: Move, x: Cell)
    requires At(g, mv) == Empty && x != Empty
    ensures |Available(Place(g, mv, x))| == |Available(g)| - 1
  {
    PlacePrefixCount(g, mv, x, 9);
  }

  /** The position of cell i (0, 1 or 2) of winning line k, numbering the
      eight lines in the order check_win scans them: rows 0..2, columns
      0..2, the main diagonal, the anti-diagonal. */
  function LineCell(k: int, i: int): (p: int)
    requires 0 <= k < 8 && 0 <= i < 3
    ensures 0 <= p < 9
  {
    if k < 3 then 3 * k + i
    else if k < 6 then (k - 3) + 3 * i
    else if k == 6 then 4 * i
    else 2 + 2 * i
  }

  /** Line k holds three equal non-empty cells. */
  predicate Complete(g: Grid, k: int)
    requires 0 <= k < 8
  {
    g[LineCell(k, 0)] != Empty && g[LineCell(k, 0)] == g[LineCell(k, 1)] && g[LineCell(k, 1)] == g[LineCell(k, 2)]
  }

  /** The scan of check_win from line k on: the owner of the first complete
      line, or None when lines k..7 are all incomplete. */
  function ScanLines(g: Grid, k: nat): Option<Marker>
    requires k <= 8
    decreases 8 - k
  {
    if k == 8 then None
    else if Complete(g, k) then Some(g[LineCell(k, 0)])
    else ScanLines(g, k + 1)
  }

  lemma {:induction false} ScanLinesSpec(g: Grid, k: nat)
    requires k <= 8
    ensures ScanLines(g, k) == None <==> forall j :: k <= j < 8 ==> !Complete(g, j)
    ensures ScanLines(g, k).Some? ==>
              exists j :: k <= j < 8 && Complete(g, j) && g[LineCell(j, 0)] == ScanLines(g, k).value &&
                          forall i :: k <= i < j ==> !Complete(g, i)
    decreases 8 - k
  {
    if k < 8 && !Complete(g, k) {
      ScanLinesSpec(g, k + 1);
    }
  }

  /** The cells at positions a, b and c all hold m. */
  predicate Three(g: Grid, a: int, b: int, c: int, m: Marker)
    requires 0 <= a < 9 && 0 <= b < 9 && 0 <= c < 9
  {
    g[a] == m && g[b] == m && g[c] == m
  }

  /** The reference definition of a win, written out cell by cell: m fills
      a row, a column or one of the two diagonals. */
  predicate HasLine(g: Grid, m: Marker)
  {
    Three(g, 0, 1, 2, m) || Three(g, 3, 4, 5, m) || Three(g, 6, 7, 8, m) ||
    Three(g, 0, 3, 6, m) || Three(g, 1, 4, 7, m) || Three(g, 2, 5, 8, m) ||
    Three(g, 0, 4, 8, m) || Three(g, 2, 4, 6, m)
  }

  /** check_win: the marker of the first complete line, rows first, then
      columns, then the main and the anti-diagonal. */
  function CheckWin(g: Grid): Option<Marker>
  {
    ScanLines(g, 0)
  }

  /** check_win reports the owner of the first complete line in scan order,
      and None exactly when no line is complete. */
  lemma CheckWinFirstLine(g: Grid)
    ensures CheckWin(g).Some? ==>
              exists k :: 0 <= k < 8 && Complete(g, k) && g[LineCell(k, 0)] == CheckWin(g).value &&
                          forall j :: 0 <= j < k ==> !Complete(g, j)
    ensures CheckWin(g) == None <==> forall k :: 0 <= k < 8 ==> !Complete(g, k)
  {
    ScanLinesSpec(g, 0);
  }

  lemma LineOwned(g: Grid, k: int, m: Marker)
    requires 0 <= k < 8
    ensures (Complete(g, k) && g[LineCell(k, 0)] == m) <==> Three(g, LineCell(k, 0), LineCell(k, 1), LineCell(k, 2), m)
  {
  }

  /** The line numbering and the reference definition agree: m owns one of
      the eight numbered lines exactly when it fills a row, a column or a
      diagonal. */
  lemma HasLineIffComplete(g: Grid, m: Marker)
    ensures HasLine(g, m) <==> exists k :: 0 <= k < 8 && Complete(g, k) && g[LineCell(k, 0)] == m
  {
    forall k | 0 <= k < 8 {
      LineOwned(g, k, m);
    }
    if HasLine(g, m) {
      if Three(g, 0, 1, 2, m) { assert Complete(g, 0); }
      else if Three(g, 3, 4, 5, m) { assert Complete(g, 1); }
      else if Three(g, 6, 7, 8, m) { assert Complete(g, 2); }
      else if Three(g, 0, 3, 6, m) { assert Complete(g, 3); }
      else if Three(g, 1, 4, 7, m) { assert Complete(g, 4); }
      else if Three(g, 2, 5, 8, m) { assert Complete(g, 5); }
      else if Three(g, 0, 4, 8, m) { assert Complete(g, 6); }
      else { assert Complete(g, 7); }
    }
  }

  /** check_win reports a marker only when that marker owns a line, and it
      reports None exactly when neither marker owns one. */
  lemma CheckWinSound(g: Grid)
    ensures CheckWin(g).Some? ==> HasLine(g, CheckWin(g).value)
    ensures CheckWin(g) == None <==> !HasLine(g, X) && !HasLine(g, O)
  {
    CheckWinFirstLine(g);
    HasLineIffComplete(g, X);
    HasLineIffComplete(g, O);
  }

  /** check_draw: no winner and no legal move. */
  function CheckDraw(g: Grid): bool
  {
    CheckWin(g) == None && Available(g) == []
  }

  /** A draw is exactly a full board on which neither marker owns a line;
      so a draw and a winner never coincide, and a full board is one of
      the two. */
  lemma DrawOrWin(g: Grid)
    ensures CheckDraw(g) <==> !HasLine(g, X) && !HasLine(g, O) && forall mv :: At(g, mv) != Empty
    ensures !(CheckDraw(g) && CheckWin(g).Some?)
    ensures (forall mv :: At(g, mv) != Empty) ==> CheckDraw(g) || CheckWin(g).Some?
  {
    CheckWinSound(g);
    AvailableSpec(g);
    var ms := Available(g);
    if ms != [] {
      assert At(g, ms[0]) == Empty;
    }
  }

  /** A move on a board without a winner can only complete lines of the
      mover: if check_win reports anyone afterwards, it reports the mover. */
  lemma NewWinIsMover(g: Grid, mv: Move, m: Marker)
    requires CheckWin(g) == None && At(g, mv) == Empty
    ensures CheckWin(Place(g, mv, m)) == None || CheckWin(Place(g, mv, m)) == Some(m)
  {
    var h := Place(g, mv, m);
    CheckWinFirstLine(g);
    CheckWinFirstLine(h);
    if CheckWin(h).Some? {
      var k :| 0 <= k < 8 && Complete(h, k) && h[LineCell(k, 0)] == CheckWin(h).value;
      assert !Complete(g, k);
      assert LineCell(k, 0) == Rank(mv) || LineCell(k, 1) == Rank(mv) || LineCell(k, 2) == Rank(mv);
    }
  }

  /** The board object: a 3x3 array of cells that make_move, the searches
      and the game controller update in place. */
  class TicTacToeBoard {
    var board: array2<Cell>

    ghost predicate Valid()
      reads this
    {
      board.Length0 == 3 && board.Length1 == 3
    }

    /** The grid value of the array. */
    function Cells(): Grid
      reads this, board
      requires Valid()
    {
      [board[0, 0], board[0, 1], board[0, 2],
       board[1, 0], board[1, 1], board[1, 2],
       board[2, 0], board[2, 1], board[2, 2]]
    }

    /** Cell mv of the grid value is element (mv.row, mv.col) of the array. */
    lemma CellsAt()
      requires Valid()
      ensures forall mv :: At(Cells(), mv) == board[mv.row, mv.col]
    {
    }

    constructor ()
      ensures Valid() && fresh(board)
      ensures Cells() == EmptyGrid
    {
      board := new Cell[3, 3]((i, j) => Empty);
      new;
      CellsAt();
      GridExt(Cells(), EmptyGrid);
    }

    /** reset_board: a new array of empty cells replaces the old one. */
    method ResetBoard()
      modifies this
      ensures Valid() && fresh(board)
      ensures Cells() == EmptyGrid
    {
      board := new Cell[3, 3]((i, j) => Empty);
      CellsAt();
      GridExt(Cells(), EmptyGrid);
    }

    /** The raw write board[row][col] := x that make_move and the players'
        searches perform. */
    method SetCell(mv: Move, x: Cell)
      requires Valid()
      modifies board
      ensures Valid()
      ensures Cells() == Place(old(Cells()), mv, x)
    {
      ghost var g := Cells();
      CellsAt();
      board[mv.row, mv.col] := x;
      CellsAt();
      GridExt(Cells(), Place(g, mv, x));
    }

    /** is_valid_move: the cell is empty, that is, it is a legal move. */
    function IsValidMove(row: Index, col: Index): (ok: bool)
      reads this, board
      requires Valid()
      ensures ok <==> Move(row, col) in Available(Cells())
    {
      AvailableSpec(Cells());
      CellsAt();
      board[row, col] == Empty
    }

    /** make_move: writes the marker and reports true exactly when the
        target cell was empty; otherwise reports false and changes nothing. */
    method MakeMove(player: Marker, row: Index, col: Index) returns (ok: bool)
      requires Valid()
      modifies board
      ensures Valid()
      ensures ok <==> At(old(Cells()), Move(row, col)) == Empty
      ensures Cells() == if ok then Place(old(Cells()), Move(row, col), player) else old(Cells())
    {
      ok := IsValidMove(row, col);
      if ok {
        SetCell(Move(row, col), player);
      }
    }

    /** available_moves: the nested row and column loops collect the empty
        cells in row-major order. */
    method AvailableMoves() returns (moves: seq<Move>)
      requires Valid()
      ensures moves == Available(Cells())
    {
      ghost var g := Cells();
      CellsAt();
      moves := [];
      for i := 0 to 3
        invariant moves == AvailablePrefix(g, 3 * i)
      {
        for j := 0 to 3
          invariant moves == AvailablePrefix(g, 3 * i + j)
        {
          ghost var k := 3 * i + j;
          assert MoveAt(k) == Move(i, j);
          assert AvailablePrefix(g, k + 1) ==
                 AvailablePrefix(g, k) + (if At(g, Move(i, j)) == Empty then [Move(i, j)] else []);
          if board[i, j] == Empty {
            moves := moves + [Move(i, j)];
          }
        }
      }
    }
  }
}
