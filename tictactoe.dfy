/**
  Tic-tac-toe rules and the minimax player of tictactoe/tictactoe.py.

  A board is a 3x3 grid of cells; a cell is `None` (EMPTY) or holds a mark.
  Boards are values, so `ResultOf` leaves its argument untouched (the deep copy
  of the Python code). The float sentinels -inf/+inf of the search are the integers
  -2/+2: every utility lies in {-1, 0, 1}, so no comparison changes.
*/
module TicTacToe {
  import opened Options

  datatype Mark = X | O

  /** `None` is the EMPTY cell. */
  type Cell = Option<Mark>

  predicate IsBoard(b: seq<seq<Cell>>) {
    |b| == 3 && forall i | 0 <= i < 3 :: |b[i]| == 3
  }

  type Board = b: seq<seq<Cell>> | IsBoard(b)
    witness [[None, None, None], [None, None, None], [None, None, None]]

  /** A move `(i, j)`: row `i`, column `j`. */
  type Action = (int, int)

  predicate InRange(a: Action) {
    0 <= a.0 < 3 && 0 <= a.1 < 3
  }

  /** The outcome of `result`: the new board, or the exception it raises. */
  datatype Outcome = Ok(board: Board) | Raised

  const Sentinel: int := 2

  function Max(a: int, b: int): int { if a >= b then a else b }

  function Min(a: int, b: int): int { if a <= b then a else b }

  // ---------------------------------------------------------------------------
  // Specification sets over the cells. `(i, j)` comes before `(I, J)` when the
  // Python code's row-major double loop visits it first.

  predicate Before(i: int, j: int, I: int, J: int) {
    i < I || (i == I && j < J)
  }

  /** The empty cells the double loop over the board has seen before `(I, J)`. */
  function OpenBefore(b: Board, I: int, J: int): set<Action> {
    set i, j | 0 <= i < 3 && 0 <= j < 3 && Before(i, j, I, J) && b[i][j] == None :: (i, j)
  }

  /** The filled cells the double loop over the board has seen before `(I, J)`. */
  function MarkedBefore(b: Board, I: int, J: int): set<Action> {
    set i, j | 0 <= i < 3 && 0 <= j < 3 && Before(i, j, I, J) && b[i][j] != None :: (i, j)
  }

  function EmptyCells(b: Board): set<Action> { OpenBefore(b, 3, 0) }

  function FilledCells(b: Board): set<Action> { MarkedBefore(b, 3, 0) }

  function AllCells(): set<Action> {
    set i, j | 0 <= i < 3 && 0 <= j < 3 :: (i, j)
  }

  lemma AllCellsCount()
    ensures |AllCells()| == 9
  {
    assert AllCells() == {(0, 0), (0, 1), (0, 2), (1, 0), (1, 1), (1, 2), (2, 0), (2, 1), (2, 2)};
  }

  /** Every cell is either empty or filled, and there are nine of them. */
  lemma CellsPartition(b: Board)
    ensures EmptyCells(b) + FilledCells(b) == AllCells()
    ensures EmptyCells(b) !! FilledCells(b)
    ensures |EmptyCells(b)| + |FilledCells(b)| == 9
  {
    assert EmptyCells(b) + FilledCells(b) == AllCells();
    AllCellsCount();
  }

  lemma NoEmptyCells(b: Board)
    ensures EmptyCells(b) == {} <==> forall i, j | 0 <= i < 3 && 0 <= j < 3 :: b[i][j] != None
  {
    if EmptyCells(b) == {} {
      forall i, j | 0 <= i < 3 && 0 <= j < 3 ensures b[i][j] != None {
        assert (i, j) !in EmptyCells(b);
      }
    }
  }

  // ---------------------------------------------------------------------------
  // initial_state

  function InitialState(): (b: Board)
    ensures forall i, j | 0 <= i < 3 && 0 <= j < 3 :: b[i][j] == None
    ensures EmptyCells(b) == AllCells()
  {
    [[None, None, None], [None, None, None], [None, None, None]]
  }

  // ---------------------------------------------------------------------------
  // winner

  predicate RowOf(b: Board, i: int, m: Mark)
    requires 0 <= i < 3
  {
    b[i][0] == Some(m) && b[i][1] == Some(m) && b[i][2] == Some(m)
  }

  predicate ColOf(b: Board, i: int, m: Mark)
    requires 0 <= i < 3
  {
    b[0][i] == Some(m) && b[1][i] == Some(m) && b[2][i] == Some(m)
  }

  predicate DiagOf(b: Board, m: Mark) {
    b[0][0] == Some(m) && b[1][1] == Some(m) && b[2][2] == Some(m)
  }

  predicate AntiDiagOf(b: Board, m: Mark) {
    b[2][0] == Some(m) && b[1][1] == Some(m) && b[0][2] == Some(m)
  }

  /** Some row or column from `i` on, or a diagonal, holds three `m`. */
  predicate LineFrom(b: Board, i: int, m: Mark)
    requires 0 <= i <= 3
  {
    (exists i' | i <= i' < 3 :: RowOf(b, i', m) || ColOf(b, i', m)) || DiagOf(b, m) || AntiDiagOf(b, m)
  }

  predicate HasLine(b: Board, m: Mark) {
    LineFrom(b, 0, m)
  }

  /** No row, column or diagonal consists of three EMPTY cells. */
  predicate NoEmptyLine(b: Board) {
    && (forall i | 0 <= i < 3 :: b[i][0] != None || b[i][1] != None || b[i][2] != None)
    && (forall i | 0 <= i < 3 :: b[0][i] != None || b[1][i] != None || b[2][i] != None)
    && (b[0][0] != None || b[1][1] != None || b[2][2] != None)
    && (b[2][0] != None || b[1][1] != None || b[0][2] != None)
  }

  /** The diagonal part of `winner`: the first diagonal of three equal cells
      decides, through its middle cell. */
  function DiagonalWinner(b: Board): (r: Cell)
    ensures r.Some? ==> DiagOf(b, r.value) || AntiDiagOf(b, r.value)
    ensures NoEmptyLine(b) && r.None? ==> forall m :: !DiagOf(b, m) && !AntiDiagOf(b, m)
  {
    if b[0][0] == b[1][1] == b[2][2] then b[1][1]
    else if b[2][0] == b[1][1] == b[0][2] then b[1][1]
    else None
  }

  /** The Python code's loop from row/column `i` on: the first row or column of
      three equal cells decides, even when they are EMPTY (then the answer is
      `None` and no later line is looked at). */
  function WinnerFrom(b: Board, i: int): (r: Cell)
    requires 0 <= i <= 3
    ensures r.Some? ==> LineFrom(b, i, r.value)
    ensures NoEmptyLine(b) && r.None? ==> !LineFrom(b, i, X) && !LineFrom(b, i, O)
    decreases 3 - i
  {
    if i == 3 then DiagonalWinner(b)
    else if b[i][0] == b[i][1] == b[i][2] then
      // the Python code's fallbacks to the second and third cell are equal to the first
      assert b[i][0].Some? ==> RowOf(b, i, b[i][0].value);
      b[i][0]
    else if b[0][i] == b[1][i] == b[2][i] then
      assert b[0][i].Some? ==> ColOf(b, i, b[0][i].value);
      b[0][i]
    else
      LineFromStep(b, i, X);
      LineFromStep(b, i, O);
      WinnerFrom(b, i + 1)
  }

  lemma LineFromStep(b: Board, i: int, m: Mark)
    requires 0 <= i < 3
    ensures LineFrom(b, i, m) <==> RowOf(b, i, m) || ColOf(b, i, m) || LineFrom(b, i + 1, m)
  {
    if LineFrom(b, i + 1, m) && !DiagOf(b, m) && !AntiDiagOf(b, m) {
      var i' :| i + 1 <= i' < 3 && (RowOf(b, i', m) || ColOf(b, i', m));
      assert i <= i' < 3;
    }
  }

  /** `winner`. The Python code's `board is initial_state()` test compares identity
      with a freshly built list and is never true, so it has no branch here. */
  function Winner(b: Board): (r: Cell)
    ensures r.Some? ==> HasLine(b, r.value)
  {
    WinnerFrom(b, 0)
  }

  /** Without a line of three EMPTY cells, `Winner` reports a mark exactly when
      some line holds three of one mark. */
  lemma WinnerComplete(b: Board)
    requires NoEmptyLine(b)
    ensures Winner(b).None? <==> !HasLine(b, X) && !HasLine(b, O)
  {
    var w := Winner(b);
    match w
    case None =>
    case Some(X) => assert HasLine(b, X);
    case Some(O) => assert HasLine(b, O);
  }

  /** The quirk of the Python code: an empty top row stops the scan before the
      second row is looked at, so a won board has no winner. */
  lemma EmptyRowHidesWin()
    ensures var b: Board := [[None, None, None], [Some(X), Some(X), Some(X)], [Some(O), Some(O), None]];
            HasLine(b, X) && Winner(b) == None
  {
    var b: Board := [[None, None, None], [Some(X), Some(X), Some(X)], [Some(O), Some(O), None]];
    assert RowOf(b, 1, X);
  }

  // ---------------------------------------------------------------------------
  // terminal and utility

  function Terminal(b: Board): (r: bool)
    ensures r <==> Winner(b).Some? || EmptyCells(b) == {}
  {
    NoEmptyCells(b);
    Winner(b) != None || forall i, j | 0 <= i < 3 && 0 <= j < 3 :: b[i][j] != None
  }

  /** A board that is not over has a free cell. */
  lemma NotTerminalHasMove(b: Board)
    requires !Terminal(b)
    ensures EmptyCells(b) != {} && |FilledCells(b)| < 9
  {
    CellsPartition(b);
  }

  function Utility(b: Board): (r: int)
    ensures r == 1 <==> Winner(b) == Some(X)
    ensures r == -1 <==> Winner(b) == Some(O)
    ensures r == 0 <==> Winner(b).None?
    ensures -1 <= r <= 1
  {
    match Winner(b)
    case Some(X) => 1
    case Some(O) => -1
    case None => 0
  }

  // ---------------------------------------------------------------------------
  // player

  /** Whose turn it is: nobody's on a finished board, X after an even number of
      moves and O after an odd number. */
  function PlayerOf(b: Board): Option<Mark> {
    if Terminal(b) then None
    else if |FilledCells(b)| % 2 == 0 then Some(X)
    else Some(O)
  }

  method Player(b: Board) returns (p: Option<Mark>)
    ensures p == PlayerOf(b)
    ensures p == None <==> Terminal(b)
  {
    if Terminal(b) {
      return None;
    }
    var count := 0;
    for i := 0 to 3
      invariant count == |MarkedBefore(b, i, 0)|
    {
      for j := 0 to 3
        invariant count == |MarkedBefore(b, i, j)|
      {
        var before := MarkedBefore(b, i, j);
        if b[i][j] != None {
          assert (i, j) !in before;
          assert MarkedBefore(b, i, j + 1) == before + {(i, j)};
          count := count + 1;
        } else {
          assert MarkedBefore(b, i, j + 1) == before;
        }
      }
      assert MarkedBefore(b, i + 1, 0) == MarkedBefore(b, i, 3);
    }
    if count % 2 == 0 {
      p := Some(X);
    } else {
      p := Some(O);
    }
  }

  // ---------------------------------------------------------------------------
  // actions

  method Actions(b: Board) returns (acts: set<Action>)
    ensures acts == EmptyCells(b)
    ensures forall a | a in acts :: InRange(a) && b[a.0][a.1] == None
  {
    acts := {};
    for i := 0 to 3
      invariant acts == OpenBefore(b, i, 0)
    {
      for j := 0 to 3
        invariant acts == OpenBefore(b, i, j)
      {
        if b[i][j] == None {
          assert OpenBefore(b, i, j + 1) == acts + {(i, j)};
          acts := acts + {(i, j)};
        } else {
          assert OpenBefore(b, i, j + 1) == acts;
        }
      }
      assert OpenBefore(b, i + 1, 0) == OpenBefore(b, i, 3);
    }
  }

  // ---------------------------------------------------------------------------
  // result

  /** `result`: raises on an occupied cell; otherwise a new board that differs
      from `b` only at `a`, which holds the player to move. */
  method ResultOf(b: Board, a: Action) returns (r: Outcome)
    requires InRange(a)
    ensures r.Raised? <==> b[a.0][a.1] != None
    ensures r.Ok? ==> r.board[a.0][a.1] == PlayerOf(b)
    ensures r.Ok? ==> forall i, j | 0 <= i < 3 && 0 <= j < 3 && (i, j) != a :: r.board[i][j] == b[i][j]
  {
    if b[a.0][a.1] != None {
      return Raised;
    }
    var temp := b;
    var p := Player(b);
    temp := temp[a.0 := temp[a.0][a.1 := p]];
    return Ok(temp);
  }

  /** Placing a mark on an empty cell removes exactly that cell from the
      empty ones and adds it to the filled ones. */
  lemma PlaceOnEmpty(b: Board, a: Action, b': Board, m: Mark)
    requires InRange(a) && b[a.0][a.1] == None && b'[a.0][a.1] == Some(m)
    requires forall i, j | 0 <= i < 3 && 0 <= j < 3 && (i, j) != a :: b'[i][j] == b[i][j]
    ensures EmptyCells(b') == EmptyCells(b) - {a}
    ensures FilledCells(b') == FilledCells(b) + {a} && a !in FilledCells(b)
    ensures |EmptyCells(b')| == |EmptyCells(b)| - 1
    ensures |FilledCells(b')| == |FilledCells(b)| + 1
  {
    assert a in EmptyCells(b);
    assert EmptyCells(b') == EmptyCells(b) - {a};
    assert FilledCells(b') == FilledCells(b) + {a};
  }

  /** The turn alternates: a move on a board that is not over hands the turn
      to the other mark unless the game ends. */
  lemma PlayersAlternate(b: Board, a: Action, b': Board, m: Mark)
    requires PlayerOf(b) == Some(m) && InRange(a) && b[a.0][a.1] == None
    requires b'[a.0][a.1] == Some(m)
    requires forall i, j | 0 <= i < 3 && 0 <= j < 3 && (i, j) != a :: b'[i][j] == b[i][j]
    ensures !Terminal(b') ==> PlayerOf(b') == Some(if m == X then O else X)
  {
    PlaceOnEmpty(b, a, b', m);
    TurnFlips(b, b', m);
  }

  /** One more move played flips the turn, unless the game is over. */
  lemma TurnFlips(b: Board, b': Board, m: Mark)
    requires PlayerOf(b) == Some(m)
    requires |FilledCells(b')| == |FilledCells(b)| + 1
    ensures !Terminal(b') ==> PlayerOf(b') == Some(if m == X then O else X)
  {
    if !Terminal(b') {
      ParityTurn(b);
      ParityTurn(b');
    }
  }

  /** On a board that is not over, the turn is decided by the parity of the
      number of moves played. */
  lemma ParityTurn(b: Board)
    requires !Terminal(b)
    ensures PlayerOf(b) == Some(X) <==> |FilledCells(b)| % 2 == 0
    ensures PlayerOf(b) == Some(O) <==> |FilledCells(b)| % 2 == 1
  {
  }

  // ---------------------------------------------------------------------------
  // min_max_value and minimax

  /** The value search of the Python code, with its early exit against the caller's
      `bestValue`. It always yields a utility. */
  method MinMaxValue(b: Board, bestValue: int) returns (v: int)
    ensures -1 <= v <= 1
    ensures Terminal(b) ==> v == Utility(b)
    decreases |EmptyCells(b)|
  {
    if Terminal(b) {
      return Utility(b);
    }
    var p := Player(b);
    var value := if p == Some(X) then -Sentinel else Sentinel;
    var acts := Actions(b);
    NotTerminalHasMove(b);
    var rest := acts;
    while rest != {}
      invariant rest <= acts
      invariant rest == acts ==> value == (if p == Some(X) then -Sentinel else Sentinel)
      invariant rest != acts ==> -1 <= value <= 1
      decreases rest
    {
      var a :| a in rest;
      rest := rest - {a};
      var next := ResultOf(b, a);
      if next.Raised? {
        assert false;
        return 0;
      }
      PlaceOnEmpty(b, a, next.board, p.value);
      var newValue := MinMaxValue(next.board, value);
      if p == Some(X) && newValue > bestValue {
        return newValue;
      } else if p == Some(O) && newValue < bestValue {
        return newValue;
      } else {
        value := if p == Some(X) then Max(value, newValue) else Min(value, newValue);
      }
    }
    return value;
  }

  /** `minimax`: no move on a finished board, an arbitrary cell on the empty
      board (the Python code picks it at random), and otherwise a free cell. */
  method Minimax(b: Board) returns (r: Option<Action>)
    ensures Terminal(b) <==> r == None
    ensures r.Some? && b == InitialState() ==> InRange(r.value)
    ensures r.Some? && b != InitialState() ==> r.value in EmptyCells(b)
  {
    if Terminal(b) {
      return None;
    }
    if b == InitialState() {
      var i :| 0 <= i < 3;
      var j :| 0 <= j < 3;
      return Some((i, j));
    }
    var p := Player(b);
    var bestAction: Option<Action> := None;
    var bestValue := if p == Some(X) then -Sentinel else Sentinel;
    var acts := Actions(b);
    NotTerminalHasMove(b);
    var rest := acts;
    while rest != {}
      invariant rest <= acts
      invariant rest == acts ==> bestAction == None && bestValue == (if p == Some(X) then -Sentinel else Sentinel)
      invariant rest != acts ==> -1 <= bestValue <= 1 && bestAction.Some? && bestAction.value in acts
      decreases rest
    {
      var a :| a in rest;
      rest := rest - {a};
      var next := ResultOf(b, a);
      if next.Raised? {
        assert false;
        return None;
      }
      if Terminal(next.board) {
        return Some(a);
      }
      var v := MinMaxValue(next.board, bestValue);
      var newValue := if p == Some(X) then Max(bestValue, v) else Min(bestValue, v);
      if newValue != bestValue {
        bestValue := newValue;
        bestAction := Some(a);
      }
    }
    return bestAction;
  }
}
