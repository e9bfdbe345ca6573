/** The game-state machine as values: what one click does to the board, the
    player to move and the active flag, and the invariant legal play keeps. */
module Engine {
  import opened Board
  import opened Search

  /** The source's board, currentPlayer and isGameActive. */
  datatype Game = Game(board: Board, player: Player, active: bool)

  /** The state after construction and after restartGame. */
  const Initial: Game := Game(EmptyBoard, X, true)

  /** A click is applied only while the game is active and on an empty
      square; any other index (occupied, or off the board) is ignored. */
  predicate Legal(g: Game, index: int) {
    g.active && 0 <= index < 9 && g.board[index] == Empty
  }

  /** One handleCellClick without the AI reply: place the marker, then a win
      ends the game, else a full board ends it, else the turn passes. */
  function Click(g: Game, index: int): (r: Game)
    ensures forall j :: 0 <= j < 9 && g.board[j] != Empty ==> r.board[j] == g.board[j]
    ensures Count(r.board, Empty) == Count(g.board, Empty) - (if Legal(g, index) then 1 else 0)
    ensures Legal(g, index) ==> (r.active <==> Evaluate(r.board) == None)
  {
    if !Legal(g, index) then g
    else
      var b := g.board[index := g.player];
      PlaceFillsOne(g.board, index, g.player);
      if HasWinningLine(b) then Game(b, g.player, false)
      else if IsFull(b) then Game(b, g.player, false)
      else Game(b, Other(g.player), true)
  }

  /** handleCellClick: in AI mode a legal, non-terminal move that hands the
      turn to O is followed at once by makeAIMove. */
  function Play(g: Game, index: int, aiMode: bool): (r: Game)
    ensures Count(r.board, Empty) <= Count(g.board, Empty)
    ensures Legal(g, index) ==> Count(r.board, Empty) < Count(g.board, Empty)
    decreases Count(g.board, Empty), 0
  {
    var g1 := Click(g, index);
    if aiMode && Legal(g, index) && g1.active && g1.player == O then
      AiReply(g1, aiMode)
    else g1
  }

  /** makeAIMove: click the square findBestMove picks. With no square to
      pick, the click is on an undefined index and is ignored. */
  function AiReply(g: Game, aiMode: bool): (r: Game)
    ensures Count(r.board, Empty) <= Count(g.board, Empty)
    ensures IsFull(g.board) ==> r == g
    decreases Count(g.board, Empty), 1
  {
    BestMoveIsOptimal(g.board);
    match BestMove(g.board)
    case None => g
    case Some(k) => Play(g, k, aiMode)
  }

  /** What holds of every state reached from Initial by clicks: the game is
      active exactly while no line is complete and a square is free, at most
      one player owns a line, X has placed as many markers as O or one more,
      while active the player to move is X exactly when the counts are equal,
      and once a line is complete the recorded player owns it. */
  ghost predicate Consistent(g: Game) {
    (g.active <==> Evaluate(g.board) == None) &&
    !(HasLine(g.board, X) && HasLine(g.board, O)) &&
    Count(g.board, O) <= Count(g.board, X) <= Count(g.board, O) + 1 &&
    (g.active ==> (g.player == X <==> Count(g.board, X) == Count(g.board, O))) &&
    (HasWinningLine(g.board) ==> HasLine(g.board, g.player))
  }

  lemma InitialConsistent()
    ensures Consistent(Initial)
  {
    CountZero(EmptyBoard, X);
    CountZero(EmptyBoard, O);
    CountZero(EmptyBoard, Empty);
    assert !HasLine(EmptyBoard, X) && !HasLine(EmptyBoard, O);
  }

  /** An illegal click changes nothing, so repeating it changes nothing
      either; a legal click writes the mover's marker on that square only,
      and exactly one of three outcomes follows: a win (the game stops and
      the winner stays recorded, owning a line through the square), a draw
      (the board is full without a line and the game stops), or the game
      goes on with the other player to move. */
  lemma {:induction false} ClickOutcome(g: Game, index: int)
    requires Consistent(g)
    ensures !Legal(g, index) ==> Click(g, index) == g
    ensures Legal(g, index) ==> Click(g, index).board == g.board[index := g.player]
    ensures Legal(g, index) && HasWinningLine(Click(g, index).board) ==>
      !Click(g, index).active && Click(g, index).player == g.player &&
      HasLine(Click(g, index).board, g.player) && !HasLine(Click(g, index).board, Other(g.player)) &&
      Evaluate(Click(g, index).board) == Some(if g.player == O then 10 else -10)
    ensures Legal(g, index) && !HasWinningLine(Click(g, index).board) && IsFull(Click(g, index).board) ==>
      !Click(g, index).active && Click(g, index).player == g.player && Evaluate(Click(g, index).board) == Some(0)
    ensures Legal(g, index) && !HasWinningLine(Click(g, index).board) && !IsFull(Click(g, index).board) ==>
      Click(g, index).active && Click(g, index).player == Other(g.player)
  {
    if Legal(g, index) {
      NewLinesBelongToMover(g.board, index, g.player);
    }
  }

  /** A line completed by a legal click runs through the clicked square, and
      the line the source highlights is the winner's. */
  lemma {:induction false} WinningLineThroughMove(g: Game, index: int)
    requires Consistent(g) && Legal(g, index) && HasWinningLine(Click(g, index).board)
    ensures FirstWinningLine(Click(g, index).board).Some?
    ensures var line := FirstWinningLine(Click(g, index).board).value;
      LineOf(Click(g, index).board, line, g.player) && index in {line.a, line.b, line.c}
  {
    NewLinesBelongToMover(g.board, index, g.player);
  }

  lemma {:induction false} ClickPreservesConsistent(g: Game, index: int)
    requires Consistent(g)
    ensures Consistent(Click(g, index))
  {
    if Legal(g, index) {
      var p := g.player;
      var b := g.board[index := p];
      NewLinesBelongToMover(g.board, index, p);
      PlaceFillsOne(g.board, index, p);
      if p == O {
        assert Count(g.board, X) == Count(g.board, O) + 1;
      }
    }
  }

  /** Every click, including the AI's reply, keeps the invariant. */
  lemma {:induction false} PlayPreservesConsistent(g: Game, index: int, aiMode: bool)
    requires Consistent(g)
    ensures Consistent(Play(g, index, aiMode))
    decreases Count(g.board, Empty)
  {
    ClickPreservesConsistent(g, index);
    var g1 := Click(g, index);
    if aiMode && Legal(g, index) && g1.active && g1.player == O {
      PlaceFillsOne(g.board, index, g.player);
      match BestMove(g1.board)
      case None =>
      case Some(k) => PlayPreservesConsistent(g1, k, aiMode);
    }
  }

  /** No click ever changes a square that is already taken. */
  lemma {:induction false} PlayKeepsMarks(g: Game, index: int, aiMode: bool)
    ensures forall j :: 0 <= j < 9 && g.board[j] != Empty ==> Play(g, index, aiMode).board[j] == g.board[j]
    decreases Count(g.board, Empty)
  {
    var g1 := Click(g, index);
    if aiMode && Legal(g, index) && g1.active && g1.player == O {
      PlaceFillsOne(g.board, index, g.player);
      match BestMove(g1.board)
      case None =>
      case Some(k) => PlayKeepsMarks(g1, k, aiMode);
    }
  }

  /** An ignored click changes nothing, in either mode. */
  lemma IllegalPlayIsNoOp(g: Game, index: int, aiMode: bool)
    requires !Legal(g, index)
    ensures Play(g, index, aiMode) == g
  {
  }

  /** After a legal click the clicked square holds the mover's marker. */
  lemma {:induction false} PlayMarksSquare(g: Game, index: int, aiMode: bool)
    requires Legal(g, index)
    ensures Play(g, index, aiMode).board[index] == g.player
  {
    var g1 := Click(g, index);
    if aiMode && g1.active && g1.player == O {
      PlaceFillsOne(g.board, index, g.player);
      match BestMove(g1.board)
      case None =>
      case Some(k) => PlayKeepsMarks(g1, k, aiMode);
    }
  }

  /** Clicking the same square twice has the effect of clicking it once. */
  lemma {:induction false} PlayIdempotent(g: Game, index: int, aiMode: bool)
    ensures Play(Play(g, index, aiMode), index, aiMode) == Play(g, index, aiMode)
  {
    var g' := Play(g, index, aiMode);
    if Legal(g, index) {
      PlayMarksSquare(g, index, aiMode);
      IllegalPlayIsNoOp(g', index, aiMode);
    } else {
      IllegalPlayIsNoOp(g, index, aiMode);
    }
  }

  /** In AI mode, from any reachable position with X to move, a legal X
      click that leaves the game open is answered by O on the square
      findBestMove picks, after which X is to move again or the game is over. */
  lemma {:induction false} AiAnswersX(g: Game, index: int)
    requires Consistent(g) && g.player == X && Legal(g, index) && Click(g, index).active
    ensures BestMove(Click(g, index).board).Some?
    ensures Play(g, index, true) == Click(Click(g, index), BestMove(Click(g, index).board).value)
    ensures Play(g, index, true).player == X || !Play(g, index, true).active
  {
    var g1 := Click(g, index);
    ClickOutcome(g, index);
    assert g1.player == O;
    BestMoveIsOptimal(g1.board);
    var k := BestMove(g1.board).value;
    assert Legal(g1, k);
    ClickPreservesConsistent(g, index);
    ClickOutcome(g1, k);
    var g2 := Click(g1, k);
    assert g2.active ==> g2.player == X;
    PlaceFillsOne(g.board, index, g.player);
    assert AiReply(g1, true) == Play(g1, k, true) == g2;
  }

  /** The win scenario: X completes the top row, the game stops with X
      recorded as the winner, and the top row is the line highlighted. */
  lemma WinScenario()
    ensures var g := Game([X, X, Empty, O, O, Empty, Empty, Empty, Empty], X, true);
      Click(g, 2) == Game([X, X, X, O, O, Empty, Empty, Empty, Empty], X, false) &&
      FirstWinningLine(Click(g, 2).board) == Some(Line(0, 1, 2))
  {
    var g := Game([X, X, Empty, O, O, Empty, Empty, Empty, Empty], X, true);
    var b: Board := [X, X, X, O, O, Empty, Empty, Empty, Empty];
    assert Legal(g, 2) && g.board[2 := X] == b;
    assert LineComplete(b, WinningConditions[0]);
    assert HasWinningLine(b);
    assert FindLineFrom(b, 0) == Some(0);
  }
}
