/** The 3x3 grid, the eight fixed winning lines, and the terminal-state
    evaluation shared by the game engine and the minimax search. */
module Board {

  datatype Option<T> = None | Some(value: T)

  /** One square: the source's '', 'X' or 'O'. */
  datatype Cell = Empty | X | O

  /** A marker that can be placed; the current player is always one of these. */
  type Player = c: Cell | c != Empty witness X

  /** A square's position, row-major: 0,1,2 / 3,4,5 / 6,7,8. */
  type Index = i: int | 0 <= i < 9

  /** The nine squares of the grid, in index order. */
  type Board = s: seq<Cell> | |s| == 9 witness [Empty, Empty, Empty, Empty, Empty, Empty, Empty, Empty, Empty]

  /** The three squares of one row, column or diagonal. */
  datatype Line = Line(a: Index, b: Index, c: Index)

  const EmptyBoard: Board := [Empty, Empty, Empty, Empty, Empty, Empty, Empty, Empty, Empty]

  /** Rows, then columns, then the two diagonals, in the order they are scanned. */
  const WinningConditions: seq<Line> := [
    Line(0, 1, 2), Line(3, 4, 5), Line(6, 7, 8),
    Line(0, 3, 6), Line(1, 4, 7), Line(2, 5, 8),
    Line(0, 4, 8), Line(2, 4, 6)
  ]

  function Other(p: Player): (q: Player)
    ensures q != p
  {
    if p == X then O else X
  }

  /** The line's first square is non-empty and the other two hold the same marker. */
  predicate LineComplete(b: Board, line: Line) {
    b[line.a] != Empty && b[line.a] == b[line.b] && b[line.a] == b[line.c]
  }

  /** All three squares of `line` hold `p`. */
  predicate LineOf(b: Board, line: Line, p: Player) {
    b[line.a] == p && b[line.b] == p && b[line.c] == p
  }

  /** Some winning line is filled with `p`. */
  predicate HasLine(b: Board, p: Player) {
    exists k :: 0 <= k < |WinningConditions| && LineOf(b, WinningConditions[k], p)
  }

  /** The source's checkWin: some winning condition is complete. */
  function HasWinningLine(b: Board): (won: bool)
    ensures won <==> HasLine(b, X) || HasLine(b, O)
  {
    assert forall k :: 0 <= k < |WinningConditions| && LineComplete(b, WinningConditions[k]) ==>
      LineOf(b, WinningConditions[k], b[WinningConditions[k].a]);
    exists k :: 0 <= k < |WinningConditions| && LineComplete(b, WinningConditions[k])
  }

  /** Number of occurrences of `c` in `s`. */
  function Count(s: seq<Cell>, c: Cell): (n: nat)
    ensures n <= |s|
  {
    if s == [] then 0 else (if s[0] == c then 1 else 0) + Count(s[1..], c)
  }

  lemma {:induction false} CountUpdate(s: seq<Cell>, i: nat, v: Cell, c: Cell)
    requires i < |s|
    ensures Count(s[i := v], c) == Count(s, c) - (if s[i] == c then 1 else 0) + (if v == c then 1 else 0)
  {
    if i == 0 {
      assert s[i := v][1..] == s[1..];
    } else {
      assert s[i := v][1..] == s[1..][i - 1 := v];
      CountUpdate(s[1..], i - 1, v, c);
    }
  }

  lemma {:induction false} CountZero(s: seq<Cell>, c: Cell)
    ensures Count(s, c) == 0 <==> forall i :: 0 <= i < |s| ==> s[i] != c
  {
    if s != [] {
      CountZero(s[1..], c);
      assert forall i :: 1 <= i < |s| ==> s[i] == s[1..][i - 1];
    }
  }

  /** Placing a marker on an empty square leaves one empty square fewer. */
  lemma PlaceFillsOne(b: Board, i: Index, p: Player)
    requires b[i] == Empty
    ensures Count(b[i := p], Empty) == Count(b, Empty) - 1
    ensures Count(b[i := p], p) == Count(b, p) + 1
    ensures Count(b[i := p], Other(p)) == Count(b, Other(p))
  {
    CountUpdate(b, i, p, Empty);
    CountUpdate(b, i, p, p);
    CountUpdate(b, i, p, Other(p));
  }

  /** The source's checkDraw: every square is taken. */
  function IsFull(b: Board): (full: bool)
    ensures full <==> Count(b, Empty) == 0
  {
    CountZero(b, Empty);
    forall i :: 0 <= i < 9 ==> b[i] != Empty
  }

  /** Index of the first complete winning condition at or after `k`. */
  function FindLineFrom(b: Board, k: nat): (r: Option<nat>)
    requires k <= |WinningConditions|
    ensures r.Some? ==> k <= r.value < |WinningConditions| && LineComplete(b, WinningConditions[r.value])
    ensures r.Some? ==> forall j :: k <= j < r.value ==> !LineComplete(b, WinningConditions[j])
    ensures r.None? ==> forall j :: k <= j < |WinningConditions| ==> !LineComplete(b, WinningConditions[j])
    decreases |WinningConditions| - k
  {
    if k == |WinningConditions| then None
    else if LineComplete(b, WinningConditions[k]) then Some(k)
    else FindLineFrom(b, k + 1)
  }

  /** `k` is the first complete winning condition in scan order. */
  predicate FirstComplete(b: Board, k: int) {
    0 <= k < |WinningConditions| && LineComplete(b, WinningConditions[k]) &&
    forall j :: 0 <= j < k ==> !LineComplete(b, WinningConditions[j])
  }

  /** The winning-condition lookup (`find`) of highlightWinningCells. */
  function FirstWinningLine(b: Board): (r: Option<Line>)
    ensures r.None? <==> !HasWinningLine(b)
    ensures r.Some? ==> exists k :: FirstComplete(b, k) && WinningConditions[k] == r.value
  {
    match FindLineFrom(b, 0)
    case None => None
    case Some(k) => Some(WinningConditions[k])
  }

  /** The source's checkGameState: 10 for an O line, -10 for an X line (the
      first complete line decides), 0 for a full board without a line, and
      None while the game is still open. */
  function Evaluate(b: Board): (r: Option<int>)
    ensures r == Some(10) ==> HasLine(b, O)
    ensures r == Some(-10) ==> HasLine(b, X)
    ensures r == Some(0) <==> !HasWinningLine(b) && IsFull(b)
    ensures r == None <==> !HasWinningLine(b) && !IsFull(b)
    ensures r.Some? ==> r.value == 10 || r.value == 0 || r.value == -10
    ensures HasLine(b, O) && !HasLine(b, X) ==> r == Some(10)
    ensures HasLine(b, X) && !HasLine(b, O) ==> r == Some(-10)
  {
    match FirstWinningLine(b)
    case Some(line) => Some(if b[line.a] == O then 10 else -10)
    case None => if IsFull(b) then Some(0) else None
  }

  /** Once no line is complete, a line completed by placing `p` at `i` runs
      through `i` and belongs to `p`: the opponent cannot gain a line. */
  lemma {:induction false} NewLinesBelongToMover(b: Board, i: Index, p: Player)
    requires !HasWinningLine(b)
    ensures !HasLine(b[i := p], Other(p))
    ensures HasWinningLine(b[i := p]) <==> HasLine(b[i := p], p)
    ensures forall k :: 0 <= k < |WinningConditions| && LineComplete(b[i := p], WinningConditions[k]) ==>
      LineOf(b[i := p], WinningConditions[k], p) && i in {WinningConditions[k].a, WinningConditions[k].b, WinningConditions[k].c}
  {
    var b' := b[i := p];
    forall k | 0 <= k < |WinningConditions| && LineComplete(b', WinningConditions[k])
      ensures LineOf(b', WinningConditions[k], p)
      ensures i in {WinningConditions[k].a, WinningConditions[k].b, WinningConditions[k].c}
    {
      var line := WinningConditions[k];
      assert i != line.a && i != line.b && i != line.c ==> LineComplete(b, line);
    }
    forall k | 0 <= k < |WinningConditions|
      ensures !LineOf(b', WinningConditions[k], Other(p))
    {
      if LineOf(b', WinningConditions[k], Other(p)) {
        assert LineComplete(b', WinningConditions[k]);
      }
    }
  }

  /** The fully occupied board of the draw scenario has no complete line. */
  lemma DrawScenario()
    ensures Evaluate([X, O, X, X, O, O, O, X, X]) == Some(0)
  {
    var b: Board := [X, O, X, X, O, O, O, X, X];
    assert !HasWinningLine(b) by {
      forall k | 0 <= k < |WinningConditions| ensures !LineComplete(b, WinningConditions[k]) {
        assert k in {0, 1, 2, 3, 4, 5, 6, 7};
      }
    }
  }
}
