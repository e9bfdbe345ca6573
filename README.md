# Tic-tac-toe engine: a verified Dafny model

This project models the game logic of the `TicTacToe` class in
`PRODIGY_WD_03/script.js`. That logic has three parts:

- the game state machine: a 9-square board, the player to move and the
  active flag, changed only by a click on a square or by a restart;
- terminal-state evaluation over the eight fixed winning lines:
  `checkWin`, `checkDraw`, `checkGameState` and the winning-line lookup of
  `highlightWinningCells`;
- the AI's exhaustive minimax search (`minimax`, `findBestMove`). It places a
  marker on the board array, recurses, then undoes the placement.

The project has four modules:

- `Board` (board.dfy): squares, lines and the terminal-state functions.
- `Search` (search.dfy): a pure reference minimax and best-move choice.
- `Engine` (engine.dfy): the state machine as values. `Click` is one
  `handleCellClick` without the AI reply. `Play` adds the AI reply.
  `Consistent` is the invariant that legal play keeps.
- `TicTacToeGame` (tictactoe.dfy): the class itself. It has an
  `array<Cell>` board and the `currentPlayer`, `isGameActive` and
  `isAIMode` fields.

Each class method is proved against the pure definitions. `HandleCellClick`
ends in the state `Play` gives. `Minimax` and `FindBestMove` return the
reference values and leave the array exactly as they found it. The lemmas
about the pure definitions state what the game promises.

As in the source:

- The AI always plays O.
- A click returns nothing.
- The score of a finished board comes from the first complete line in scan
  order.
- The winning line is only looked up for highlighting.

## Model

| member | source | states |
|---|---|---|
| `Board.HasWinningLine` | PRODIGY_WD_03/script.js:139-146 | checkWin holds exactly when some winning line is filled with X or filled with O |
| `Board.IsFull` | PRODIGY_WD_03/script.js:148-150 | checkDraw holds exactly when no empty square is left |
| `Board.FindLineFrom` | PRODIGY_WD_03/script.js:163-168 | the scan returns the first complete winning condition at or after the start, or none when none of the rest is complete |
| `Board.FirstWinningLine` | PRODIGY_WD_03/script.js:162-168 | the lookup finds a line exactly when checkWin holds, and the line it finds is the first complete one in scan order |
| `Board.Evaluate` | PRODIGY_WD_03/script.js:112-128 | 10 only if O has a line, -10 only if X has a line; 0 exactly for a full board with no line; null exactly for an open board with no line; with lines of only one player the score is that player's |
| `Board.NewLinesBelongToMover` | PRODIGY_WD_03/script.js:34-42 | when no line is complete, any line completed by a move runs through the moved-on square and belongs to the mover; the opponent gains no line |
| `Board.DrawScenario` | PRODIGY_WD_03/script.js:121-124 | the full board X,O,X,X,O,O,O,X,X scores as a draw |
| `Search.MinimaxValue` | PRODIGY_WD_03/script.js:81-110 | the minimax score of every board is -10, 0 or 10 |
| `Search.ScanMoves` | PRODIGY_WD_03/script.js:87-109 | a layer's loop, started from the -Infinity/Infinity seed on a board with an empty square, ends with a score in {-10, 0, 10} |
| `Search.ScanMovesSpec` | PRODIGY_WD_03/script.js:87-109 | a layer's loop ends with a score at least as good for its side as every reply and as the seed, and the score is the seed or some reply's value |
| `Search.MinimaxCharacterized` | PRODIGY_WD_03/script.js:81-110 | on a finished board minimax is the terminal score; otherwise it is the maximum (O to move) or minimum (X to move) over the empty squares of the reply values, and some empty square attains it |
| `Search.BestMoveFrom` | PRODIGY_WD_03/script.js:65-76 | findBestMove's loop; the definition is the contract (`BestMoveFromSpec` describes it). Its result is the move carried in, or an empty square at or after the loop's position |
| `Search.BestMove` | PRODIGY_WD_03/script.js:61-79 | findBestMove as a value, the reference `FindBestMove` is proved equal to; the definition is the contract (`BestMoveIsOptimal` describes it). A square it returns is empty |
| `Search.BestMoveFromSpec` | PRODIGY_WD_03/script.js:65-76 | from any point of the loop where the choice so far is best and first among the squares seen, the loop ends with the best, lowest-indexed square, or with none on a full board |
| `Search.BestMoveIsOptimal` | PRODIGY_WD_03/script.js:61-79 | findBestMove has no answer exactly when the board is full; otherwise it picks an empty square whose value for O is maximal, and no lower empty square has that value |
| `Engine.Click` | PRODIGY_WD_03/script.js:33-49 | one handleCellClick without the AI reply; the definition is the contract (`ClickOutcome` and `ClickPreservesConsistent` describe it). It never overwrites a taken square, fills exactly one square when the click is legal, and after a legal click the game is active exactly while it is undecided |
| `Engine.Play` | PRODIGY_WD_03/script.js:33-54 | handleCellClick with the AI reply it may trigger, the reference `HandleCellClick` is proved equal to; the definition is the contract (`PlayPreservesConsistent`, `PlayIdempotent` and `AiAnswersX` describe it). It never frees a square, and a legal click fills at least one |
| `Engine.AiReply` | PRODIGY_WD_03/script.js:56-59 | makeAIMove as a value, the reference `MakeAIMove` is proved equal to; the definition is the contract (`AiAnswersX` describes it). It never frees a square, and on a full board it changes nothing |
| `Engine.InitialConsistent` | PRODIGY_WD_03/script.js:2-5 | the starting state (empty board, X to move, active) satisfies the game invariant |
| `Engine.ClickOutcome` | PRODIGY_WD_03/script.js:33-49 | an ignored click changes nothing; a legal click writes the mover's marker on that square only; then exactly one outcome follows: a win (the game stops, the mover stays recorded, only the mover has a line, score ±10), a draw (the game stops, the mover stays recorded, score 0), or play goes on with the other player to move |
| `Engine.WinningLineThroughMove` | PRODIGY_WD_03/script.js:162-168 | after a winning click the highlighted line is the winner's and runs through the clicked square |
| `Engine.ClickPreservesConsistent` | PRODIGY_WD_03/script.js:33-49 | one click keeps the invariant: active exactly while the board is open; never a line for both players; X has as many markers as O or one more; X is to move exactly when the counts are equal; a completed line belongs to the recorded player |
| `Engine.PlayPreservesConsistent` | PRODIGY_WD_03/script.js:33-59 | a click, together with the AI reply it may trigger, keeps the invariant |
| `Engine.PlayKeepsMarks` | PRODIGY_WD_03/script.js:34-36 | no click, including the AI's reply, overwrites a square that is already taken |
| `Engine.IllegalPlayIsNoOp` | PRODIGY_WD_03/script.js:34 | a click on a finished game, an occupied square or an index off the board leaves board, player and active flag unchanged |
| `Engine.PlayMarksSquare` | PRODIGY_WD_03/script.js:36 | after a legal click the clicked square holds the marker of the player who clicked |
| `Engine.PlayIdempotent` | PRODIGY_WD_03/script.js:33-54 | clicking the same square twice has the same effect as clicking it once |
| `Engine.AiAnswersX` | PRODIGY_WD_03/script.js:49-59 | in AI mode an X move that leaves the game open is answered at once by O on the findBestMove square; X is then to move again, or the game is over |
| `Engine.WinScenario` | PRODIGY_WD_03/script.js:39-42 | X playing square 2 on X,X,_,O,O,_,_,_,_ wins: the game stops with X recorded, and the top row is the line highlighted |
| `TicTacToeGame.TicTacToe.constructor` | PRODIGY_WD_03/script.js:2-17 | a new game has an empty board, X to move, is active, has the requested AI mode, and satisfies the invariant |
| `TicTacToeGame.TicTacToe.HandleCellClick` | PRODIGY_WD_03/script.js:33-54 | the fields end in the state `Play` gives for the old state, the index and the AI mode; the invariant is kept; the board array is the same object |
| `TicTacToeGame.TicTacToe.MakeAIMove` | PRODIGY_WD_03/script.js:56-59 | the fields end in the state reached by clicking the square findBestMove picks |
| `TicTacToeGame.TicTacToe.FindBestMove` | PRODIGY_WD_03/script.js:61-79 | returns the reference best move of the board it was called on and leaves every square as it was |
| `TicTacToeGame.TicTacToe.Minimax` | PRODIGY_WD_03/script.js:81-110 | returns the reference minimax value of the board it was called on, whatever the depth, and leaves every square as it was |
| `TicTacToeGame.TicTacToe.CheckGameState` | PRODIGY_WD_03/script.js:112-128 | the loop over the winning conditions returns the same score as the terminal-state evaluation of the array's contents |
| `TicTacToeGame.TicTacToe.SwitchPlayer` | PRODIGY_WD_03/script.js:134-137 | the player to move changes from X to O or from O to X, and nothing else changes |
| `TicTacToeGame.TicTacToe.EndGame` | PRODIGY_WD_03/script.js:152-160 | the game becomes inactive, and nothing else changes |
| `TicTacToeGame.TicTacToe.RestartGame` | PRODIGY_WD_03/script.js:177-186 | a fresh all-empty board, X to move and an active game; the invariant holds again |

## Left out

- DOM work is not modelled. This covers looking up cells and buttons, the
  event listeners, `updateCell`, the `classList` edits of
  `highlightWinningCells` and `restartGame`, and every status message. These
  are display side effects. `EndGame` keeps its `isDraw` argument, which
  only chooses the message.
- The `DOMContentLoaded` mode-selection handler is not modelled. It is event
  plumbing. The AI mode is the constructor's argument instead.
- The `-Infinity`/`Infinity` fold seeds are the integers -11 and 11. Every
  score is -10, 0 or 10, so each seed still loses to every real score.
- Only integer click indices are modelled. Any integer outside 0..8 is
  ignored, as the source ignores `board[index]` when it is undefined.
  Non-integer indices are not modelled. `findBestMove`'s `undefined` result
  is `None`, and a click on it is ignored.
- There is no proof that the AI never loses a whole game. That needs the full
  game tree unfolded. Minimax is stated by its one-layer max/min definition
  instead.
- There is no proof that `findBestMove` picks square 0 on an empty board.
  That also needs the full game tree evaluated.
- `Search.MinimaxValue`, `Search.BestMove`: running time is not modelled.
  The search is exhaustive, as in the source.
- `TicTacToeGame.TicTacToe.EndGame`: highlighting is not modelled. The
  line it would highlight is `Board.FirstWinningLine`, described by
  `Engine.WinningLineThroughMove`.
