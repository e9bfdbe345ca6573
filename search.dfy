/** Reference definition of the exhaustive minimax search: the value of a
    board for the side to move, and the move the AI (always O) picks. */
module Search {
  import opened Board

  /** Scores minimax can produce: an X win, a draw, an O win. */
  predicate IsScore(v: int) {
    v == -10 || v == 0 || v == 10
  }

  /** The marker placed on a maximizing layer (O) or a minimizing layer (X). */
  function Mover(maximizing: bool): Player {
    if maximizing then O else X
  }

  /** Integer stand-in for the source's -Infinity / Infinity fold seeds:
      worse than every score for the layer's side. */
  function NoScore(maximizing: bool): int {
    if maximizing then -11 else 11
  }

  /** Math.max on a maximizing layer, Math.min on a minimizing one. */
  function Better(maximizing: bool, x: int, y: int): int {
    if maximizing then (if x >= y then x else y) else (if x <= y then x else y)
  }

  /** `x` is at least as good as `y` for the side of the layer. */
  predicate AtLeastAsGood(maximizing: bool, x: int, y: int) {
    if maximizing then x >= y else x <= y
  }

  /** The minimax value of `b` (depth plays no part in it). */
  function MinimaxValue(b: Board, maximizing: bool): (r: int)
    ensures IsScore(r)
    decreases Count(b, Empty), 1, 0
  {
    match Evaluate(b)
    case Some(s) => s
    case None => ScanMoves(b, maximizing, 0, NoScore(maximizing))
  }

  /** The loop over squares i..8 of one layer, `best` being the running score. */
  function ScanMoves(b: Board, maximizing: bool, i: nat, best: int): (r: int)
    requires i <= 9
    requires IsScore(best) || (best == NoScore(maximizing) && exists j :: i <= j < 9 && b[j] == Empty)
    ensures IsScore(r)
    decreases Count(b, Empty), 0, 9 - i
  {
    if i == 9 then best
    else if b[i] == Empty then
      PlaceFillsOne(b, i, Mover(maximizing));
      var score := MinimaxValue(b[i := Mover(maximizing)], !maximizing);
      ScanMoves(b, maximizing, i + 1, Better(maximizing, score, best))
    else
      ScanMoves(b, maximizing, i + 1, best)
  }

  /** The value of the reply at square `j`: the mover's marker is placed
      there and the other side moves next. */
  function Child(b: Board, maximizing: bool, j: Index): int {
    MinimaxValue(b[j := Mover(maximizing)], !maximizing)
  }

  /** One step of a layer's loop: an empty square folds its reply's value
      into the running score, a taken square is skipped. */
  lemma ScanStep(b: Board, maximizing: bool, i: nat, best: int, score: int)
    requires i < 9
    requires IsScore(best) || (best == NoScore(maximizing) && exists j :: i <= j < 9 && b[j] == Empty)
    requires b[i] == Empty ==> score == Child(b, maximizing, i)
    ensures var best' := if b[i] == Empty then Better(maximizing, score, best) else best;
      (IsScore(best') || (best' == NoScore(maximizing) && exists j :: i + 1 <= j < 9 && b[j] == Empty)) &&
      ScanMoves(b, maximizing, i, best) == ScanMoves(b, maximizing, i + 1, best')
  {
  }

  lemma {:induction false} ScanMovesSpec(b: Board, maximizing: bool, i: nat, best: int)
    requires i <= 9
    requires IsScore(best) || (best == NoScore(maximizing) && exists j :: i <= j < 9 && b[j] == Empty)
    ensures AtLeastAsGood(maximizing, ScanMoves(b, maximizing, i, best), best)
    ensures forall j :: i <= j < 9 && b[j] == Empty ==>
      AtLeastAsGood(maximizing, ScanMoves(b, maximizing, i, best), Child(b, maximizing, j))
    ensures ScanMoves(b, maximizing, i, best) == best ||
      exists j :: i <= j < 9 && b[j] == Empty && ScanMoves(b, maximizing, i, best) == Child(b, maximizing, j)
    decreases 9 - i
  {
    if i < 9 {
      if b[i] == Empty {
        var best' := Better(maximizing, Child(b, maximizing, i), best);
        ScanMovesSpec(b, maximizing, i + 1, best');
      } else {
        ScanMovesSpec(b, maximizing, i + 1, best);
      }
    }
  }

  /** minimax returns the terminal score on a finished board; otherwise it
      is the best, for the side to move, of the values of its replies on the
      empty squares, and it is attained by one of them. */
  lemma MinimaxCharacterized(b: Board, maximizing: bool)
    ensures Evaluate(b).Some? ==> MinimaxValue(b, maximizing) == Evaluate(b).value
    ensures Evaluate(b).None? ==>
      exists j :: 0 <= j < 9 && b[j] == Empty && MinimaxValue(b, maximizing) == Child(b, maximizing, j)
    ensures Evaluate(b).None? ==>
      forall j :: 0 <= j < 9 && b[j] == Empty ==> AtLeastAsGood(maximizing, MinimaxValue(b, maximizing), Child(b, maximizing, j))
  {
    if Evaluate(b).None? {
      ScanMovesSpec(b, maximizing, 0, NoScore(maximizing));
    }
  }

  /** The loop of findBestMove over squares i..8: only a strictly better
      score replaces the current choice. */
  function BestMoveFrom(b: Board, i: nat, bestScore: int, move: Option<Index>): (r: Option<Index>)
    requires i <= 9
    ensures r == move || (r.Some? && i <= r.value && b[r.value] == Empty)
    decreases 9 - i
  {
    if i == 9 then move
    else if b[i] == Empty then
      var score := MinimaxValue(b[i := O], false);
      if score > bestScore then BestMoveFrom(b, i + 1, score, Some(i))
      else BestMoveFrom(b, i + 1, bestScore, move)
    else BestMoveFrom(b, i + 1, bestScore, move)
  }

  /** The square findBestMove picks for O, or None when the board is full. */
  function BestMove(b: Board): (r: Option<Index>)
    ensures r.Some? ==> b[r.value] == Empty
  {
    BestMoveFrom(b, 0, NoScore(true), None)
  }

  /** `k` is an empty square whose value for O is the largest, and the
      lowest-indexed such square. */
  predicate IsBestMove(b: Board, k: Index) {
    b[k] == Empty &&
    (forall j :: 0 <= j < 9 && b[j] == Empty ==> Child(b, true, j) <= Child(b, true, k)) &&
    (forall j :: 0 <= j < k && b[j] == Empty ==> Child(b, true, j) < Child(b, true, k))
  }

  /** What holds of findBestMove's variables after squares 0..i-1. */
  predicate BestSoFar(b: Board, i: nat, bestScore: int, move: Option<Index>)
    requires i <= 9
  {
    match move
    case None =>
      bestScore == NoScore(true) && forall j :: 0 <= j < i ==> b[j] != Empty
    case Some(k) =>
      k < i && b[k] == Empty && bestScore == Child(b, true, k) &&
      (forall j :: 0 <= j < i && b[j] == Empty ==> Child(b, true, j) <= bestScore) &&
      (forall j :: 0 <= j < k && b[j] == Empty ==> Child(b, true, j) < bestScore)
  }

  lemma {:induction false} BestMoveFromSpec(b: Board, i: nat, bestScore: int, move: Option<Index>)
    requires i <= 9 && BestSoFar(b, i, bestScore, move)
    ensures BestMoveFrom(b, i, bestScore, move).None? ==> IsFull(b)
    ensures BestMoveFrom(b, i, bestScore, move).Some? ==> IsBestMove(b, BestMoveFrom(b, i, bestScore, move).value)
    decreases 9 - i
  {
    if i < 9 {
      var score := Child(b, true, i);
      if b[i] == Empty && score > bestScore {
        assert BestSoFar(b, i + 1, score, Some(i));
        assert BestMoveFrom(b, i, bestScore, move) == BestMoveFrom(b, i + 1, score, Some(i));
        BestMoveFromSpec(b, i + 1, score, Some(i));
      } else {
        assert BestSoFar(b, i + 1, bestScore, move);
        assert BestMoveFrom(b, i, bestScore, move) == BestMoveFrom(b, i + 1, bestScore, move);
        BestMoveFromSpec(b, i + 1, bestScore, move);
      }
    }
  }

  /** findBestMove answers on every board with an empty square, with the
      lowest-indexed empty square of maximal minimax value for O; on a full
      board it has no move. */
  lemma BestMoveIsOptimal(b: Board)
    ensures BestMove(b).None? <==> IsFull(b)
    ensures BestMove(b).Some? ==> IsBestMove(b, BestMove(b).value)
  {
    BestMoveFromSpec(b, 0, NoScore(true), None);
  }
}
