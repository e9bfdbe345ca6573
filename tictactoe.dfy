/** The TicTacToe object: its board array and turn fields, the click and
    restart operations that update them, and the in-place minimax search
    that places a marker, recurses and undoes the placement. */
module TicTacToeGame {
  import opened Board
  import opened Search
  import opened Engine

  class TicTacToe {
    var board: array<Cell>
    var currentPlayer: Player
    var isGameActive: bool
    const isAIMode: bool

    /** The fields seen as a value of the state machine. */
    ghost function State(): Game
      reads this, board
      requires board.Length == 9
    {
      Game(board[..], currentPlayer, isGameActive)
    }

    ghost predicate Valid()
      reads this, board
    {
      board.Length == 9 && Consistent(State())
    }

    constructor (isAI: bool)
      ensures Valid() && fresh(board)
      ensures State() == Initial && isAIMode == isAI
    {
      currentPlayer := X;
      board := new Cell[9](_ => Empty);
      isGameActive := true;
      isAIMode := isAI;
      new;
      assert board[..] == EmptyBoard;
      InitialConsistent();
    }

    /** handleCellClick: ignored on a finished game, an occupied square or an
        index off the board; otherwise places the current player's marker,
        ends the game on a win or a full board, or passes the turn and, in AI
        mode, lets O answer at once. */
    method HandleCellClick(index: int)
      requires Valid()
      modifies this, board
      ensures Valid() && board == old(board)
      ensures State() == Play(old(State()), index, isAIMode)
      decreases Count(board[..], Empty), 0
    {
      if !isGameActive || !(0 <= index < 9) || board[index] != Empty {
        return;
      }
      ghost var g := State();
      board[index] := currentPlayer;
      assert board[..] == g.board[index := g.player];
      ClickPreservesConsistent(g, index);
      PlaceFillsOne(g.board, index, g.player);

      if HasWinningLine(board[..]) {
        EndGame(false);
        return;
      }
      if IsFull(board[..]) {
        EndGame(true);
        return;
      }
      SwitchPlayer();
      assert State() == Click(g, index);
      if isAIMode && currentPlayer == O {
        MakeAIMove();
      }
    }

    /** makeAIMove: click the square findBestMove picks for O. */
    method MakeAIMove()
      requires Valid()
      modifies this, board
      ensures Valid() && board == old(board)
      ensures State() == AiReply(old(State()), isAIMode)
      decreases Count(board[..], Empty), 1
    {
      var bestMove := FindBestMove();
      match bestMove
      case None =>
        // handleCellClick(undefined) finds no empty square there and returns.
      case Some(k) =>
        HandleCellClick(k);
    }

    /** findBestMove: try O on every empty square in index order, score the
        reply with minimax, undo, and keep the first strictly best square. */
    method FindBestMove() returns (move: Option<Index>)
      requires board.Length == 9
      modifies board
      ensures board[..] == old(board[..])
      ensures move == BestMove(old(board[..]))
    {
      ghost var b := board[..];
      var bestScore := NoScore(true);
      move := None;
      var i := 0;
      while i < board.Length
        invariant 0 <= i <= 9
        invariant board[..] == b
        invariant BestMoveFrom(b, i, bestScore, move) == BestMove(b)
      {
        if board[i] == Empty {
          board[i] := O;
          assert board[..] == b[i := O];
          var score := Minimax(board, 0, false);
          board[i] := Empty;
          assert board[..] == b;
          if score > bestScore {
            bestScore := score;
            move := Some(i);
          }
        }
        i := i + 1;
      }
    }

    /** minimax: the score of `b` with O maximizing and X minimizing,
        computed by placing, recursing and undoing on `b` itself; `depth`
        is passed down but does not affect the score. */
    static method Minimax(b: array<Cell>, depth: nat, isMaximizing: bool) returns (score: int)
      requires b.Length == 9
      modifies b
      ensures b[..] == old(b[..])
      ensures score == MinimaxValue(old(b[..]), isMaximizing)
      decreases Count(b[..], Empty)
    {
      ghost var start := b[..];
      var result := CheckGameState(b);
      if result.Some? {
        return result.value;
      }
      assert !IsFull(start);
      if isMaximizing {
        var bestScore := NoScore(true);
        var i := 0;
        while i < b.Length
          invariant 0 <= i <= 9
          invariant b[..] == start
          invariant IsScore(bestScore) || (bestScore == NoScore(true) && exists j :: i <= j < 9 && start[j] == Empty)
          invariant ScanMoves(start, true, i, bestScore) == MinimaxValue(start, true)
        {
          if b[i] == Empty {
            b[i] := O;
            assert b[..] == start[i := O];
            PlaceFillsOne(start, i, O);
            var s := Minimax(b, depth + 1, false);
            b[i] := Empty;
            assert b[..] == start;
            ScanStep(start, true, i, bestScore, s);
            bestScore := Better(true, s, bestScore);
          } else {
            ScanStep(start, true, i, bestScore, 0);
          }
          i := i + 1;
        }
        return bestScore;
      } else {
        var bestScore := NoScore(false);
        var i := 0;
        while i < b.Length
          invariant 0 <= i <= 9
          invariant b[..] == start
          invariant IsScore(bestScore) || (bestScore == NoScore(false) && exists j :: i <= j < 9 && start[j] == Empty)
          invariant ScanMoves(start, false, i, bestScore) == MinimaxValue(start, false)
        {
          if b[i] == Empty {
            b[i] := X;
            assert b[..] == start[i := X];
            PlaceFillsOne(start, i, X);
            var s := Minimax(b, depth + 1, true);
            b[i] := Empty;
            assert b[..] == start;
            ScanStep(start, false, i, bestScore, s);
            bestScore := Better(false, s, bestScore);
          } else {
            ScanStep(start, false, i, bestScore, 0);
          }
          i := i + 1;
        }
        return bestScore;
      }
    }

    /** checkGameState: scan the winning conditions in order and score the
        first complete one by its marker; failing that, 0 for a full board
        and None for an open one. */
    static method CheckGameState(b: array<Cell>) returns (result: Option<int>)
      requires b.Length == 9
      ensures result == Evaluate(b[..])
    {
      var k := 0;
      while k < |WinningConditions|
        invariant 0 <= k <= |WinningConditions|
        invariant forall j :: 0 <= j < k ==> !LineComplete(b[..], WinningConditions[j])
      {
        var line := WinningConditions[k];
        if b[line.a] != Empty && b[line.a] == b[line.b] && b[line.a] == b[line.c] {
          assert LineComplete(b[..], line);
          assert FindLineFrom(b[..], 0) == Some(k);
          return Some(if b[line.a] == O then 10 else -10);
        }
        k := k + 1;
      }
      return if IsFull(b[..]) then Some(0) else None;
    }

    /** switchPlayer: X becomes O and O becomes X. */
    method SwitchPlayer()
      modifies this`currentPlayer
      ensures currentPlayer == Other(old(currentPlayer))
    {
      currentPlayer := if currentPlayer == X then O else X;
    }

    /** endGame: the game stops; `isDraw` only selects the status message. */
    method EndGame(isDraw: bool)
      modifies this`isGameActive
      ensures !isGameActive
    {
      isGameActive := false;
    }

    /** restartGame: a fresh empty board, X to move, the game active. */
    method RestartGame()
      modifies this
      ensures Valid() && fresh(board)
      ensures State() == Initial
    {
      currentPlayer := X;
      board := new Cell[9](_ => Empty);
      isGameActive := true;
      assert board[..] == EmptyBoard;
      InitialConsistent();
    }
  }
}
