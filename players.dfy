/** The players. The human player takes no decision here; the default
    opponent looks one ply ahead; the two AI players run exhaustive
    minimax, without and with alpha-beta pruning. Every search writes
    markers into the shared board array and clears them again, so each
    method below promises that the board is left exactly as it was found. */
module Players {
  import opened Board

  /** Stand-ins for -inf and +inf: every real score lies in -1..1. */
  const NegInf: int := -2
  const PosInf: int := 2

  function Max(a: int, b: int): int
  {
    if a >= b then a else b
  }

  function Min(a: int, b: int): int
  {
    if a <= b then a else b
  }

  /** The marker placed at a node: the searching player's own at a
      maximizing node, the opponent's at a minimizing one. */
  function Mover(me: Marker, maximizing: bool): Marker
  {
    if maximizing then me else Other(me)
  }

  /** The score of a finished position for the player holding me, as
      every search first checks it: 1 when check_win reports me, -1 when it
      reports the opponent, 0 on a draw; None while the game goes on, that
      is, exactly when nobody has won and some cell is empty. */
  function LeafScore(g: Grid, me: Marker): (r: Option<int>)
    ensures r == None <==> CheckWin(g) == None && Available(g) != []
  {
    var w := CheckWin(g);
    if w == Some(me) then Some(1)
    else if w == Some(Other(me)) then Some(-1)
    else if CheckDraw(g) then Some(0)
    else None
  }

  /** The game-tree value of g for the player holding me: the leaf score of
      a finished position, and otherwise the maximum (me to move) or the
      minimum (opponent to move) over the children, one per legal move. */
  function Value(g: Grid, me: Marker, maximizing: bool): (v: int)
    ensures -1 <= v <= 1
    decreases |Available(g)|, 1, 0
  {
    match LeafScore(g, me)
    case Some(s) => s
    case None => Children(g, me, maximizing, |Available(g)|)
  }

  /** A score s honours the window (alpha, beta) for a position of value
      v: it is v when v lies strictly inside, and otherwise lies on the
      same side of the window as v. */
  predicate Honours(alpha: int, beta: int, v: int, s: int)
  {
    (alpha < v < beta ==> s == v) && (v <= alpha ==> s <= alpha) && (beta <= v ==> beta <= s)
  }

  /** An unfinished position takes its value from its children. */
  lemma ValueOfOpen(g: Grid, me: Marker, maximizing: bool)
    requires CheckWin(g) == None && Available(g) != []
    ensures Value(g, me, maximizing) == Children(g, me, maximizing, |Available(g)|)
  {
  }

  /** The running best_score of a search node after its first k children,
      in the order of the legal-move list: the sentinel before any child,
      then the maximum or minimum of the children's values. */
  function Children(g: Grid, me: Marker, maximizing: bool, k: nat): (v: int)
    requires k <= |Available(g)|
    ensures k == 0 ==> v == (if maximizing then NegInf else PosInf)
    ensures k > 0 ==> -1 <= v <= 1
    decreases |Available(g)|, 0, k
  {
    if k == 0 then (if maximizing then NegInf else PosInf)
    else
      var s := ChildValue(g, me, maximizing, k - 1);
      if maximizing then Max(Children(g, me, maximizing, k - 1), s)
      else Min(Children(g, me, maximizing, k - 1), s)
  }

  /** The value of the child reached by the i-th legal move. */
  function ChildValue(g: Grid, me: Marker, maximizing: bool, i: nat): (v: int)
    requires i < |Available(g)|
    ensures -1 <= v <= 1
    decreases |Available(g)|, 0, 0
  {
    var mv := Available(g)[i];
    PlaceShrinks(g, mv, Mover(me, maximizing));
    Value(Place(g, mv, Mover(me, maximizing)), me, !maximizing)
  }

  /** The value, for me, of playing mv at the root: me places its marker
      and the opponent is to move. */
  function MoveValue(g: Grid, me: Marker, mv: Move): (v: int)
    ensures -1 <= v <= 1
  {
    Value(Place(g, mv, me), me, false)
  }

  /** A node's value is its last running best, and each child's value
      lies on the correct side of it. */
  lemma {:induction false} ChildrenBound(g: Grid, me: Marker, maximizing: bool, i: nat, k: nat)
    requires i < k <= |Available(g)|
    ensures maximizing ==> ChildValue(g, me, maximizing, i) <= Children(g, me, maximizing, k)
    ensures !maximizing ==> ChildValue(g, me, maximizing, i) >= Children(g, me, maximizing, k)
  {
    if i < k - 1 {
      ChildrenBound(g, me, maximizing, i, k - 1);
    }
  }

  /** The step each search repeats for one legal move mv: write the
      node's marker into mv, search the child, and clear mv again. */
  method MinimaxChild(b: TicTacToeBoard, me: Marker, maximizing: bool, ghost g: Grid, mv: Move, ghost i: nat) returns (s: int)
    requires b.Valid() && b.Cells() == g && i < |Available(g)| && mv == Available(g)[i]
    modifies b.board
    ensures b.Valid() && b.Cells() == g
    ensures s == ChildValue(g, me, maximizing, i)
    decreases |Available(g)|, 0
  {
    var marker := Mover(me, maximizing);
    b.SetCell(mv, marker);
    PlaceShrinks(g, mv, marker);
    s := Minimax(b, me, !maximizing);
    b.SetCell(mv, Empty);
    PlaceUndo(g, mv, marker);
  }

  /** AIPlayer.minimax: the value of the position, computed by placing each
      legal move on the board, recursing and clearing the cell again. */
  method Minimax(b: TicTacToeBoard, me: Marker, maximizing: bool) returns (score: int)
    requires b.Valid()
    modifies b.board
    ensures b.Valid() && b.Cells() == old(b.Cells())
    ensures score == Value(old(b.Cells()), me, maximizing)
    decreases |Available(b.Cells())|, 1
  {
    ghost var g := b.Cells();
    var leaf := LeafScore(b.Cells(), me);
    if leaf.Some? {
      return leaf.value;
    }
    ValueOfOpen(g, me, maximizing);
    score := if maximizing then NegInf else PosInf;
    var moves := b.AvailableMoves();
    var i := 0;
    while i < |moves|
      invariant 0 <= i <= |moves| && moves == Available(g)
      invariant b.Valid() && b.Cells() == g
      invariant score == Children(g, me, maximizing, i)
    {
      var s := MinimaxChild(b, me, maximizing, g, moves[i], i);
      score := if maximizing then Max(score, s) else Min(score, s);
      i := i + 1;
    }
  }

  /** The step of minimax_ab for one legal move mv: write the node's
      marker into mv, search the child in the window (alpha, beta), and
      clear mv again. */
  method AlphaBetaChild(b: TicTacToeBoard, me: Marker, maximizing: bool, ghost g: Grid, mv: Move, ghost i: nat,
                        alpha: int, beta: int) returns (s: int)
    requires b.Valid() && b.Cells() == g && i < |Available(g)| && mv == Available(g)[i]
    requires alpha < beta
    modifies b.board
    ensures b.Valid() && b.Cells() == g
    ensures -1 <= s <= 1
    ensures Honours(alpha, beta, ChildValue(g, me, maximizing, i), s)
    decreases |Available(g)|, 0
  {
    var marker := Mover(me, maximizing);
    b.SetCell(mv, marker);
    PlaceShrinks(g, mv, marker);
    s := MinimaxAB(b, me, !maximizing, alpha, beta);
    b.SetCell(mv, Empty);
    PlaceUndo(g, mv, marker);
  }

  /** One child of a maximizing minimax_ab node. c is the running maximum
      that Minimax would hold, v the child's value and s the score its
      search returned within (a, beta). While alpha stays below beta the
      score agrees with the running maximum wherever that lies above the
      original alpha; once the bounds cross, the child's value and the
      score are both at least beta. */
  lemma MaxStep(alpha: int, beta: int, a: int, score: int, first: bool, c: int, v: int, s: int)
    requires a < beta
    requires first ==> score == NegInf && a == alpha && c == NegInf
    requires !first ==> -1 <= score <= 1 && a == Max(alpha, score)
    requires c <= alpha ==> score <= alpha
    requires alpha < c ==> score == c
    requires -1 <= v <= 1 && -1 <= s <= 1 && Honours(a, beta, v, s)
    ensures var score' := Max(score, s);
            var a' := Max(a, score');
            var c' := Max(c, v);
            -1 <= score' <= 1 && a' == Max(alpha, score') &&
            (a' < beta ==> (c' <= alpha ==> score' <= alpha) && (alpha < c' ==> score' == c')) &&
            (beta <= a' ==> beta <= v && beta <= score')
  {
  }

  /** One child of a minimizing minimax_ab node, the mirror image of
      MaxStep: once the bounds cross, the child's value and the score are
      both at most alpha. */
  lemma MinStep(alpha: int, beta: int, z: int, score: int, first: bool, c: int, v: int, s: int)
    requires alpha < z
    requires first ==> score == PosInf && z == beta && c == PosInf
    requires !first ==> -1 <= score <= 1 && z == Min(beta, score)
    requires beta <= c ==> beta <= score
    requires c < beta ==> score == c
    requires -1 <= v <= 1 && -1 <= s <= 1 && Honours(alpha, z, v, s)
    ensures var score' := Min(score, s);
            var z' := Min(z, score');
            var c' := Min(c, v);
            -1 <= score' <= 1 && z' == Min(beta, score') &&
            (alpha < z' ==> (beta <= c' ==> beta <= score') && (c' < beta ==> score' == c')) &&
            (z' <= alpha ==> v <= alpha && score' <= alpha)
  {
  }

  /** The maximizing branch of minimax_ab on an unfinished position g:
      best_score is the running maximum, alpha is raised to it, and the
      loop stops once beta <= alpha. */
  method MaxNodeAB(b: TicTacToeBoard, me: Marker, ghost g: Grid, alpha: int, beta: int) returns (score: int)
    requires b.Valid() && b.Cells() == g && Available(g) != []
    requires alpha < beta
    modifies b.board
    ensures b.Valid() && b.Cells() == g
    ensures -1 <= score <= 1
    ensures Honours(alpha, beta, Children(g, me, true, |Available(g)|), score)
    decreases |Available(g)|, 1
  {
    ghost var n := |Available(g)|;
    score := NegInf;
    var a := alpha;
    var moves := b.AvailableMoves();
    var i := 0;
    while i < |moves|
      invariant 0 <= i <= |moves| && moves == Available(g)
      invariant b.Valid() && b.Cells() == g
      invariant a < beta
      invariant i == 0 ==> score == NegInf && a == alpha
      invariant i > 0 ==> -1 <= score <= 1 && a == Max(alpha, score)
      invariant Children(g, me, true, i) <= alpha ==> score <= alpha
      invariant alpha < Children(g, me, true, i) ==> score == Children(g, me, true, i)
    {
      ghost var c := Children(g, me, true, i);
      ghost var v := ChildValue(g, me, true, i);
      assert Children(g, me, true, i + 1) == Max(c, v);
      var s := AlphaBetaChild(b, me, true, g, moves[i], i, a, beta);
      MaxStep(alpha, beta, a, score, i == 0, c, v, s);
      score := Max(score, s);
      a := Max(a, score);
      if beta <= a {
        ChildrenBound(g, me, true, i, n);
        break;
      }
      i := i + 1;
    }
  }

  /** The minimizing branch of minimax_ab on an unfinished position g:
      best_score is the running minimum, beta is lowered to it, and the
      loop stops once beta <= alpha. */
  method MinNodeAB(b: TicTacToeBoard, me: Marker, ghost g: Grid, alpha: int, beta: int) returns (score: int)
    requires b.Valid() && b.Cells() == g && Available(g) != []
    requires alpha < beta
    modifies b.board
    ensures b.Valid() && b.Cells() == g
    ensures -1 <= score <= 1
    ensures Honours(alpha, beta, Children(g, me, false, |Available(g)|), score)
    decreases |Available(g)|, 1
  {
    ghost var n := |Available(g)|;
    score := PosInf;
    var z := beta;
    var moves := b.AvailableMoves();
    var i := 0;
    while i < |moves|
      invariant 0 <= i <= |moves| && moves == Available(g)
      invariant b.Valid() && b.Cells() == g
      invariant alpha < z
      invariant i == 0 ==> score == PosInf && z == beta
      invariant i > 0 ==> -1 <= score <= 1 && z == Min(beta, score)
      invariant beta <= Children(g, me, false, i) ==> beta <= score
      invariant Children(g, me, false, i) < beta ==> score == Children(g, me, false, i)
    {
      ghost var c := Children(g, me, false, i);
      ghost var v := ChildValue(g, me, false, i);
      assert Children(g, me, false, i + 1) == Min(c, v);
      var s := AlphaBetaChild(b, me, false, g, moves[i], i, alpha, z);
      MinStep(alpha, beta, z, score, i == 0, c, v, s);
      score := Min(score, s);
      z := Min(z, score);
      if z <= alpha {
        ChildrenBound(g, me, false, i, n);
        break;
      }
      i := i + 1;
    }
  }

  /** AlphaBetaAIPlayer.minimax_ab: the same search as Minimax, cut short
      once beta <= alpha. It returns the true value whenever that value lies
      strictly inside the window (alpha, beta), and otherwise a score on the
      same side of the window as the true value; with the full window
      (-inf, +inf) that is always the value minimax computes. */
  method MinimaxAB(b: TicTacToeBoard, me: Marker, maximizing: bool, alpha: int, beta: int) returns (score: int)
    requires b.Valid()
    requires alpha < beta
    modifies b.board
    ensures b.Valid() && b.Cells() == old(b.Cells())
    ensures -1 <= score <= 1
    ensures Honours(alpha, beta, Value(old(b.Cells()), me, maximizing), score)
    ensures alpha == NegInf && beta == PosInf ==> score == Value(old(b.Cells()), me, maximizing)
    decreases |Available(b.Cells())|, 2
  {
    ghost var g := b.Cells();
    var leaf := LeafScore(b.Cells(), me);
    if leaf.Some? {
      return leaf.value;
    }
    ValueOfOpen(g, me, maximizing);
    if maximizing {
      score := MaxNodeAB(b, me, g, alpha, beta);
    } else {
      score := MinNodeAB(b, me, g, alpha, beta);
    }
  }

  /** The values of the children of g, one per legal move, in the order of
      the legal-move list. */
  function Scores(g: Grid, me: Marker, maximizing: bool): (vs: seq<int>)
    ensures |vs| == |Available(g)|
    ensures forall i :: 0 <= i < |vs| ==> vs[i] == ChildValue(g, me, maximizing, i)
  {
    seq(|Available(g)|, i requires 0 <= i < |Available(g)| => ChildValue(g, me, maximizing, i))
  }

  /** The running (best_move, best_score) pair of a root search. */
  datatype Choice = Choice(move: Option<Move>, score: int)

  /** The pair after the first k of the moves ms with scores vs: a later
      move replaces the current best only when its score is strictly
      greater. */
  function Pick(ms: seq<Move>, vs: seq<int>, k: nat): Choice
    requires |ms| == |vs| && k <= |vs|
  {
    if k == 0 then Choice(None, NegInf)
    else
      var prev := Pick(ms, vs, k - 1);
      if vs[k - 1] > prev.score then Choice(Some(ms[k - 1]), vs[k - 1]) else prev
  }

  /** The pair after the first k legal moves of g, each scored by its
      child's value. */
  function RootChoice(g: Grid, me: Marker, k: nat): Choice
    requires k <= |Available(g)|
  {
    Pick(Available(g), Scores(g, me, true), k)
  }

  /** The move AIPlayer.get_move returns on g. */
  function BestMove(g: Grid, me: Marker): Option<Move>
  {
    RootChoice(g, me, |Available(g)|).move
  }

  /** The first position of a greatest value among the first k values:
      a later value replaces the current one only when strictly greater. */
  function FirstMax(vs: seq<int>, k: nat): (j: nat)
    requires 0 < k <= |vs|
    ensures j < k
  {
    if k == 1 then 0
    else
      var j := FirstMax(vs, k - 1);
      if vs[k - 1] > vs[j] then k - 1 else j
  }

  /** FirstMax picks a greatest value, and every value before it is
      strictly smaller. */
  lemma {:induction false} FirstMaxSpec(vs: seq<int>, k: nat)
    requires 0 < k <= |vs|
    ensures forall i :: 0 <= i < k ==> vs[i] <= vs[FirstMax(vs, k)]
    ensures forall i :: 0 <= i < FirstMax(vs, k) ==> vs[i] < vs[FirstMax(vs, k)]
  {
    if k > 1 {
      FirstMaxSpec(vs, k - 1);
    }
  }

  /** The position, in the legal-move list, of the move RootChoice keeps
      after the first k moves. */
  function RootIndex(g: Grid, me: Marker, k: nat): (j: nat)
    requires 0 < k <= |Available(g)|
    ensures j < k
  {
    FirstMax(Scores(g, me, true), k)
  }

  /** Before the first move the pair is (None, -inf); afterwards, when
      every score beats the sentinel, it holds the move at the first
      greatest score together with that score. */
  lemma {:induction false} PickFirstMax(ms: seq<Move>, vs: seq<int>, k: nat)
    requires |ms| == |vs| && k <= |vs|
    requires forall i :: 0 <= i < |vs| ==> NegInf < vs[i]
    ensures k == 0 ==> Pick(ms, vs, k) == Choice(None, NegInf)
    ensures k > 0 ==> Pick(ms, vs, k) == Choice(Some(ms[FirstMax(vs, k)]), vs[FirstMax(vs, k)])
  {
    if k > 1 {
      PickFirstMax(ms, vs, k - 1);
    }
  }

  /** The kept move has the greatest value among the first k moves, and
      every move before it has a strictly smaller value. */
  lemma RootIndexMax(g: Grid, me: Marker, k: nat)
    requires 0 < k <= |Available(g)|
    ensures forall i :: 0 <= i < k ==> ChildValue(g, me, true, i) <= ChildValue(g, me, true, RootIndex(g, me, k))
    ensures forall i :: 0 <= i < RootIndex(g, me, k) ==> ChildValue(g, me, true, i) < ChildValue(g, me, true, RootIndex(g, me, k))
  {
    FirstMaxSpec(Scores(g, me, true), k);
  }

  /** The kept value is the running maximum of the children's values,
      the best_score of a maximizing node. */
  lemma {:induction false} RootIndexScore(g: Grid, me: Marker, k: nat)
    requires 0 < k <= |Available(g)|
    ensures ChildValue(g, me, true, RootIndex(g, me, k)) == Children(g, me, true, k)
  {
    if k > 1 {
      RootIndexScore(g, me, k - 1);
    }
  }

  /** What AIPlayer.get_move promises: no move exactly when no cell is
      empty; otherwise an empty cell of greatest value, and of all the
      cells of that value the first in row-major order. When g is not
      finished, that value is the value of g itself. */
  lemma BestMoveSpec(g: Grid, me: Marker)
    ensures BestMove(g, me) == None <==> Available(g) == []
    ensures BestMove(g, me).Some? ==>
              var mv := BestMove(g, me).value;
              mv in Available(g) &&
              (forall o :: o in Available(g) ==> MoveValue(g, me, o) <= MoveValue(g, me, mv)) &&
              (forall o :: o in Available(g) && Rank(o) < Rank(mv) ==> MoveValue(g, me, o) < MoveValue(g, me, mv))
    ensures BestMove(g, me).Some? && CheckWin(g) == None ==>
              MoveValue(g, me, BestMove(g, me).value) == Value(g, me, true)
  {
    var ms := Available(g);
    PickFirstMax(ms, Scores(g, me, true), |ms|);
    if ms != [] {
      AvailableSpec(g);
      var j := RootIndex(g, me, |ms|);
      RootIndexMax(g, me, |ms|);
      RootIndexScore(g, me, |ms|);
      var mv := ms[j];
      assert BestMove(g, me) == Some(mv);
      forall i | 0 <= i < |ms|
        ensures MoveValue(g, me, ms[i]) <= MoveValue(g, me, mv)
        ensures Rank(ms[i]) < Rank(mv) ==> MoveValue(g, me, ms[i]) < MoveValue(g, me, mv)
      {
        assert MoveValue(g, me, ms[i]) == ChildValue(g, me, true, i);
        AvailableOrder(g, i, j);
      }
      assert MoveValue(g, me, mv) == ChildValue(g, me, true, j);
      if CheckWin(g) == None {
        ValueOfOpen(g, me, true);
      }
    }
  }

  /** AIPlayer.get_move: search each legal move with Minimax and keep the
      first one of strictly greatest score. */
  method MinimaxGetMove(me: Marker, b: TicTacToeBoard) returns (move: Option<Move>)
    requires b.Valid()
    modifies b.board
    ensures b.Valid() && b.Cells() == old(b.Cells())
    ensures move == BestMove(old(b.Cells()), me)
  {
    ghost var g := b.Cells();
    var bestScore := NegInf;
    move := None;
    var moves := b.AvailableMoves();
    var i := 0;
    while i < |moves|
      invariant 0 <= i <= |moves| && moves == Available(g)
      invariant b.Valid() && b.Cells() == g
      invariant Choice(move, bestScore) == RootChoice(g, me, i)
      invariant i == 0 ==> bestScore == NegInf
      invariant i > 0 ==> -1 <= bestScore <= 1
    {
      var mv := moves[i];
      var score := MinimaxChild(b, me, true, g, mv, i);
      if score > bestScore {
        bestScore := score;
        move := Some(mv);
      }
      i := i + 1;
    }
  }

  /** AlphaBetaAIPlayer.get_move: the same root loop, each child searched by
      MinimaxAB in the window (alpha, +inf) where alpha is raised to the
      best score so far. It returns the same move as AIPlayer.get_move. */
  method AlphaBetaGetMove(me: Marker, b: TicTacToeBoard) returns (move: Option<Move>)
    requires b.Valid()
    modifies b.board
    ensures b.Valid() && b.Cells() == old(b.Cells())
    ensures move == BestMove(old(b.Cells()), me)
  {
    ghost var g := b.Cells();
    var bestScore := NegInf;
    move := None;
    var alpha, beta := NegInf, PosInf;
    var moves := b.AvailableMoves();
    var i := 0;
    while i < |moves|
      invariant 0 <= i <= |moves| && moves == Available(g)
      invariant b.Valid() && b.Cells() == g
      invariant Choice(move, bestScore) == RootChoice(g, me, i)
      invariant alpha == bestScore && beta == PosInf
      invariant i == 0 ==> bestScore == NegInf
      invariant i > 0 ==> -1 <= bestScore <= 1
    {
      var mv := moves[i];
      var score := AlphaBetaChild(b, me, true, g, mv, i, alpha, beta);
      if score > bestScore {
        bestScore := score;
        move := Some(mv);
      }
      alpha := Max(alpha, bestScore);
      i := i + 1;
    }
  }

  /** Completing a move: after m is placed on mv, check_win reports m. */
  predicate Completes(g: Grid, mv: Move, m: Marker)
  {
    CheckWin(Place(g, mv, m)) == Some(m)
  }

  /** For each legal move, in order, whether it completes a line for m. */
  function Wins(g: Grid, m: Marker): (ws: seq<bool>)
    ensures |ws| == |Available(g)|
    ensures forall i :: 0 <= i < |ws| ==> ws[i] == Completes(g, Available(g)[i], m)
  {
    seq(|Available(g)|, i requires 0 <= i < |Available(g)| => Completes(g, Available(g)[i], m))
  }

  /** The first position from k on that holds true, if any. */
  function FirstTrue(bs: seq<bool>, k: nat): (r: Option<nat>)
    requires k <= |bs|
    ensures r.Some? ==> k <= r.value < |bs|
    decreases |bs| - k
  {
    if k == |bs| then None
    else if bs[k] then Some(k)
    else FirstTrue(bs, k + 1)
  }

  /** FirstTrue finds nothing exactly when no position from k on holds
      true, and otherwise the first position from k on that does. */
  lemma {:induction false} FirstTrueSpec(bs: seq<bool>, k: nat)
    requires k <= |bs|
    ensures FirstTrue(bs, k) == None <==> forall i :: k <= i < |bs| ==> !bs[i]
    ensures FirstTrue(bs, k).Some? ==>
              var i := FirstTrue(bs, k).value;
              k <= i < |bs| && bs[i] && forall j :: k <= j < i ==> !bs[j]
    decreases |bs| - k
  {
    if k < |bs| && !bs[k] {
      FirstTrueSpec(bs, k + 1);
    }
  }

  /** The first empty cell, in row-major order, that completes a line for m. */
  function FirstWinningCell(g: Grid, m: Marker): Option<Move>
  {
    match FirstTrue(Wins(g, m), 0)
    case None => None
    case Some(i) => Some(Available(g)[i])
  }

  /** FirstWinningCell is None exactly when no empty cell completes a line
      for m, and otherwise the row-major first empty cell that does. */
  lemma FirstWinningCellSpec(g: Grid, m: Marker)
    ensures FirstWinningCell(g, m) == None <==> forall mv :: mv in Available(g) ==> !Completes(g, mv, m)
    ensures FirstWinningCell(g, m).Some? ==>
              var mv := FirstWinningCell(g, m).value;
              mv in Available(g) && Completes(g, mv, m) &&
              forall o :: o in Available(g) && Rank(o) < Rank(mv) ==> !Completes(g, o, m)
  {
    var ms := Available(g);
    var ws := Wins(g, m);
    AvailableSpec(g);
    FirstTrueSpec(ws, 0);
    if FirstTrue(ws, 0) == None {
      forall mv | mv in ms
        ensures !Completes(g, mv, m)
      {
        var i :| 0 <= i < |ms| && ms[i] == mv;
        assert !ws[i];
      }
    } else {
      var i := FirstTrue(ws, 0).value;
      assert ws[i];
      forall o | o in ms && Rank(o) < Rank(ms[i])
        ensures !Completes(g, o, m)
      {
        var j :| 0 <= j < |ms| && ms[j] == o;
        AvailableOrder(g, j, i);
        assert !ws[j];
      }
    }
  }

  /** The step of DefaultOpponent.get_move for one legal move mv: write m
      into mv, ask check_win whether m now wins, and clear mv again. */
  method TryCompletes(m: Marker, b: TicTacToeBoard, ghost g: Grid, mv: Move) returns (won: bool)
    requires b.Valid() && b.Cells() == g && At(g, mv) == Empty
    modifies b.board
    ensures b.Valid() && b.Cells() == g
    ensures won == Completes(g, mv, m)
  {
    b.SetCell(mv, m);
    won := CheckWin(b.Cells()) == Some(m);
    b.SetCell(mv, Empty);
    PlaceUndo(g, mv, m);
  }

  /** One loop of DefaultOpponent.get_move: try each legal move for m,
      clearing the cell again, and stop at the first that makes check_win
      report m. */
  method FindCompleting(m: Marker, b: TicTacToeBoard) returns (found: Option<Move>)
    requires b.Valid()
    modifies b.board
    ensures b.Valid() && b.Cells() == old(b.Cells())
    ensures found == FirstWinningCell(old(b.Cells()), m)
  {
    ghost var g := b.Cells();
    var moves := b.AvailableMoves();
    ghost var ws := Wins(g, m);
    var i := 0;
    while i < |moves|
      invariant 0 <= i <= |moves| == |ws| && moves == Available(g)
      invariant b.Valid() && b.Cells() == g
      invariant FirstTrue(ws, 0) == FirstTrue(ws, i)
    {
      var won := TryCompletes(m, b, g, moves[i]);
      assert won == ws[i];
      if won {
        return Some(moves[i]);
      }
      i := i + 1;
    }
    return None;
  }

  /** DefaultOpponent.get_move: a cell that wins for me if there is one,
      else a cell that the opponent would win with, else any empty cell
      (the source picks it at random). The source fails on a full board
      (random.choice of an empty list), so the board must have an empty
      cell. */
  method DefaultGetMove(me: Marker, b: TicTacToeBoard) returns (move: Move)
    requires b.Valid()
    requires Available(b.Cells()) != []
    modifies b.board
    ensures b.Valid() && b.Cells() == old(b.Cells())
    ensures move in Available(old(b.Cells()))
    ensures FirstWinningCell(old(b.Cells()), me).Some? ==> move == FirstWinningCell(old(b.Cells()), me).value
    ensures FirstWinningCell(old(b.Cells()), me) == None && FirstWinningCell(old(b.Cells()), Other(me)).Some? ==>
              move == FirstWinningCell(old(b.Cells()), Other(me)).value
  {
    ghost var g := b.Cells();
    FirstWinningCellSpec(g, me);
    FirstWinningCellSpec(g, Other(me));
    var win := FindCompleting(me, b);
    if win.Some? {
      return win.value;
    }
    var opponent := Other(me);
    var block := FindCompleting(opponent, b);
    if block.Some? {
      return block.value;
    }
    var moves := b.AvailableMoves();
    assert moves[0] in moves;
    move :| move in moves;
  }

  /** HumanPlayer.get_move: a human's move arrives from the user interface,
      never from this call. */
  method HumanGetMove(b: TicTacToeBoard) returns (move: Option<Move>)
    ensures move == None
  {
    move := None;
  }

  /** The four kinds of player. */
  datatype Strategy = Human | DefaultOpponent | MinimaxAI | AlphaBetaAI

  /** A player: its marker and its kind. Players carry no other state. */
  datatype Player = Player(marker: Marker, strategy: Strategy)

  /** The moves DefaultOpponent.get_move may return on g: an empty cell;
      the first winning cell for me when there is one; otherwise the first
      cell the opponent would win with when there is one. */
  predicate DefaultChoice(g: Grid, me: Marker, mv: Move)
  {
    mv in Available(g) &&
    (FirstWinningCell(g, me).Some? ==> mv == FirstWinningCell(g, me).value) &&
    (FirstWinningCell(g, me) == None && FirstWinningCell(g, Other(me)).Some? ==>
       mv == FirstWinningCell(g, Other(me)).value)
  }

  /** The moves player p may return on g. */
  predicate Chooses(p: Player, g: Grid, mv: Move)
  {
    match p.strategy
    case Human => false
    case DefaultOpponent => DefaultChoice(g, p.marker, mv)
    case MinimaxAI => BestMove(g, p.marker) == Some(mv)
    case AlphaBetaAI => BestMove(g, p.marker) == Some(mv)
  }

  /** Player.get_move, dispatched on the kind of player. */
  method GetMove(p: Player, b: TicTacToeBoard) returns (move: Option<Move>)
    requires b.Valid()
    requires p.strategy == DefaultOpponent ==> Available(b.Cells()) != []
    modifies b.board
    ensures b.Valid() && b.Cells() == old(b.Cells())
    ensures move == None <==> p.strategy == Human || Available(old(b.Cells())) == []
    ensures move.Some? ==> move.value in Available(old(b.Cells())) && Chooses(p, old(b.Cells()), move.value)
  {
    BestMoveSpec(b.Cells(), p.marker);
    match p.strategy
    case Human =>
      move := HumanGetMove(b);
    case DefaultOpponent =>
      var mv := DefaultGetMove(p.marker, b);
      move := Some(mv);
    case MinimaxAI =>
      move := MinimaxGetMove(p.marker, b);
    case AlphaBetaAI =>
      move := AlphaBetaGetMove(p.marker, b);
  }
}
