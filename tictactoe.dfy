/**
 * Tic-tac-toe rules and the alpha-beta minimax player of
 * week-0/project-1-tictactoe/tictactoe.py.
 *
 * A board is a 3x3 grid of cells; `EMPTY` is Python's `None`.  The source
 * never mutates a board it is given (`result` deep-copies it), so boards are
 * values here.  `math.inf` is the sentinel `INF`: every score is -1, 0 or 1.
 */
module TicTacToe {
  import opened Wrappers

  datatype Mark = X | O

  type Cell = Option<Mark>

  const EMPTY: Cell := None

  type Board = seq<seq<Cell>>

  type Action = (int, int)

  /** Stands for `math.inf`; it is larger than every score. */
  const INF: int := 2

  /** The exceptions `result` raises. */
  datatype MoveError = InvalidMove | InvalidAction

  predicate IsBoard(b: Board)
  {
    |b| == 3 && forall i :: 0 <= i < 3 ==> |b[i]| == 3
  }

  function Opponent(p: Mark): Mark
  {
    if p == X then O else X
  }

  function Min(a: int, b: int): int { if a <= b then a else b }

  function Max(a: int, b: int): int { if a >= b then a else b }

  // ---------------------------------------------------------------------
  // Board state
  // ---------------------------------------------------------------------

  /** `initial_state`: the board with every cell empty. */
  function InitialState(): (b: Board)
    ensures IsBoard(b)
    ensures forall i, j :: 0 <= i < 3 && 0 <= j < 3 ==> b[i][j] == EMPTY
  {
    [[EMPTY, EMPTY, EMPTY], [EMPTY, EMPTY, EMPTY], [EMPTY, EMPTY, EMPTY]]
  }

  /** `row.count(c)`. */
  function Occurrences(row: seq<Cell>, c: Cell): nat
  {
    if row == [] then 0 else (if row[0] == c then 1 else 0) + Occurrences(row[1..], c)
  }

  /** `sum([row.count(EMPTY) for row in board])`. */
  function EmptyCount(b: Board): nat
  {
    if b == [] then 0 else Occurrences(b[0], EMPTY) + EmptyCount(b[1..])
  }

  /** The cells `actions` collects: every (i, j) whose cell is empty. */
  function EmptyCells(b: Board): set<Action>
    requires IsBoard(b)
  {
    set i, j | 0 <= i < 3 && 0 <= j < 3 && b[i][j] == EMPTY :: (i, j)
  }

  lemma {:induction false} OccurrencesZero(row: seq<Cell>, c: Cell)
    ensures Occurrences(row, c) == 0 <==> c !in row
  {
    if row != [] {
      OccurrencesZero(row[1..], c);
      assert row == [row[0]] + row[1..];
    }
  }

  lemma EmptyCountRows(b: Board)
    requires IsBoard(b)
    ensures EmptyCount(b) == Occurrences(b[0], EMPTY) + Occurrences(b[1], EMPTY) + Occurrences(b[2], EMPTY)
  {
    assert b[1..][0] == b[1];
    assert b[1..][1..][0] == b[2];
    assert b[1..][1..][1..] == [];
    assert EmptyCount(b[1..][1..]) == Occurrences(b[2], EMPTY) + EmptyCount([]);
    assert EmptyCount(b[1..]) == Occurrences(b[1], EMPTY) + EmptyCount(b[1..][1..]);
  }

  /** No empty cell is left exactly when the empty-cell count is zero. */
  lemma FullBoard(b: Board)
    requires IsBoard(b)
    ensures EmptyCells(b) == {} <==> EmptyCount(b) == 0
  {
    EmptyCountRows(b);
    OccurrencesZero(b[0], EMPTY);
    OccurrencesZero(b[1], EMPTY);
    OccurrencesZero(b[2], EMPTY);
    if EmptyCount(b) != 0 {
      var i :| 0 <= i < 3 && EMPTY in b[i];
      var j :| 0 <= j < 3 && b[i][j] == EMPTY;
      assert (i, j) in EmptyCells(b);
    } else {
      forall i, j | 0 <= i < 3 && 0 <= j < 3 ensures b[i][j] != EMPTY {
        assert b[i][j] in b[i];
      }
    }
  }

  // ---------------------------------------------------------------------
  // Winner, terminal, utility
  // ---------------------------------------------------------------------

  predicate RowOf(b: Board, i: int, p: Mark)
    requires IsBoard(b) && 0 <= i < 3
  {
    b[i][0] == Some(p) && b[i][1] == Some(p) && b[i][2] == Some(p)
  }

  predicate ColumnOf(b: Board, j: int, p: Mark)
    requires IsBoard(b) && 0 <= j < 3
  {
    b[0][j] == Some(p) && b[1][j] == Some(p) && b[2][j] == Some(p)
  }

  predicate DiagonalOf(b: Board, p: Mark)
    requires IsBoard(b)
  {
    || (b[0][0] == Some(p) && b[1][1] == Some(p) && b[2][2] == Some(p))
    || (b[0][2] == Some(p) && b[1][1] == Some(p) && b[2][0] == Some(p))
  }

  /** `p` occupies all three cells of some row, column or diagonal. */
  predicate ThreeInARow(b: Board, p: Mark)
    requires IsBoard(b)
  {
    || (exists i :: 0 <= i < 3 && RowOf(b, i, p))
    || (exists j :: 0 <= j < 3 && ColumnOf(b, j, p))
    || DiagonalOf(b, p)
  }

  /** The diagonal test at the end of `winner`. */
  function DiagonalWinner(b: Board): Option<Mark>
    requires IsBoard(b)
  {
    var leftToRight := b[0][0] == b[1][1] == b[2][2];
    var rightToLeft := b[0][2] == b[1][1] == b[2][0];
    if (leftToRight || rightToLeft) && b[1][1] != EMPTY then b[1][1] else None
  }

  /** The loop of `winner` from index `i` on: row `i` first, column `i` only when the row is not matched. */
  function WinnerFrom(b: Board, i: nat): Option<Mark>
    requires IsBoard(b) && i <= 3
    decreases 3 - i
  {
    if i == 3 then DiagonalWinner(b)
    else if b[i][0] == b[i][1] == b[i][2] then
      if b[i][0] != EMPTY then b[i][0] else WinnerFrom(b, i + 1)
    else if b[0][i] == b[1][i] == b[2][i] then
      if b[0][i] != EMPTY then b[0][i] else WinnerFrom(b, i + 1)
    else
      WinnerFrom(b, i + 1)
  }

  /** `winner`: the player with three in a row, if any. */
  function Winner(b: Board): (r: Option<Mark>)
    requires IsBoard(b)
    ensures r.Some? ==> ThreeInARow(b, r.value)
  {
    WinnerFromMeaning(b, 0);
    WinnerFrom(b, 0)
  }

  lemma {:induction false} WinnerFromMeaning(b: Board, i: nat)
    requires IsBoard(b) && i <= 3
    ensures WinnerFrom(b, i).Some? ==> ThreeInARow(b, WinnerFrom(b, i).value)
    ensures forall k, p :: i <= k < 3 && (RowOf(b, k, p) || ColumnOf(b, k, p)) ==> WinnerFrom(b, i).Some?
    ensures (DiagonalOf(b, X) || DiagonalOf(b, O)) ==> WinnerFrom(b, i).Some?
    decreases 3 - i
  {
    if i < 3 {
      WinnerFromMeaning(b, i + 1);
      if b[i][0] == b[i][1] == b[i][2] {
        if b[i][0] != EMPTY {
          assert RowOf(b, i, b[i][0].value);
        } else {
          assert forall p :: !ColumnOf(b, i, p) by { assert b[i][i] == EMPTY; }
        }
      } else if b[0][i] == b[1][i] == b[2][i] && b[0][i] != EMPTY {
        assert ColumnOf(b, i, b[0][i].value);
      }
    }
  }

  /**
   * A winner reported by `winner` holds three in a row, and `winner` reports
   * one whenever some player holds three in a row.
   */
  lemma WinnerMeaning(b: Board)
    requires IsBoard(b)
    ensures Winner(b).Some? ==> ThreeInARow(b, Winner(b).value)
    ensures Winner(b).None? <==> !ThreeInARow(b, X) && !ThreeInARow(b, O)
  {
    WinnerFromMeaning(b, 0);
    if Winner(b).Some? {
      var p := Winner(b).value;
      assert ThreeInARow(b, p);
      assert p == X || p == O;
    }
    forall p | ThreeInARow(b, p)
      ensures Winner(b).Some?
    {
      if exists i :: 0 <= i < 3 && RowOf(b, i, p) {
        var i :| 0 <= i < 3 && RowOf(b, i, p);
      } else if exists j :: 0 <= j < 3 && ColumnOf(b, j, p) {
        var j :| 0 <= j < 3 && ColumnOf(b, j, p);
      }
    }
  }

  /** `terminal`: no empty cell is left, or someone has won. */
  predicate Terminal(b: Board): (over: bool)
    requires IsBoard(b)
    ensures over <==> EmptyCells(b) == {} || Winner(b).Some?
  {
    FullBoard(b);
    EmptyCount(b) == 0 || Winner(b).Some?
  }

  /**
   * The game is over exactly when `actions` finds no move or `winner` finds a
   * winner, that is, when the board is full or a player has three in a row.
   */
  lemma TerminalMeaning(b: Board)
    requires IsBoard(b)
    ensures Terminal(b) <==> EmptyCells(b) == {} || Winner(b).Some?
    ensures Terminal(b) <==> EmptyCount(b) == 0 || ThreeInARow(b, X) || ThreeInARow(b, O)
  {
    FullBoard(b);
    WinnerMeaning(b);
  }

  /** `utility`: 1 when X has won, -1 when O has, otherwise 0. */
  function Utility(b: Board): (u: int)
    requires IsBoard(b)
    ensures -1 <= u <= 1
    ensures u == 1 ==> ThreeInARow(b, X)
    ensures u == -1 ==> ThreeInARow(b, O)
  {
    var gameWinner := Winner(b);
    if gameWinner == Some(X) then 1 else if gameWinner == Some(O) then -1 else 0
  }

  /**
   * The utility is 1 only when X has three in a row, -1 only when O has, and
   * 0 exactly when neither has; with only one player holding a line, the sign
   * names that player.
   */
  lemma UtilityMeaning(b: Board)
    requires IsBoard(b)
    ensures -1 <= Utility(b) <= 1
    ensures Utility(b) == 1 ==> ThreeInARow(b, X)
    ensures Utility(b) == -1 ==> ThreeInARow(b, O)
    ensures Utility(b) == 0 <==> !ThreeInARow(b, X) && !ThreeInARow(b, O)
    ensures ThreeInARow(b, X) && !ThreeInARow(b, O) ==> Utility(b) == 1
    ensures ThreeInARow(b, O) && !ThreeInARow(b, X) ==> Utility(b) == -1
  {
    WinnerMeaning(b);
    if Winner(b).Some? {
      var w := Winner(b).value;
      assert w.X? || w.O?;
      assert Winner(b) == Some(w);
    }
  }

  /** `player`: nobody on a finished board, X when the number of empty cells is odd, O when it is even. */
  function Player(b: Board): (r: Option<Mark>)
    requires IsBoard(b)
    ensures r.None? <==> Terminal(b)
    ensures r == Some(X) <==> !Terminal(b) && EmptyCount(b) % 2 == 1
    ensures r == Some(O) <==> !Terminal(b) && EmptyCount(b) % 2 == 0
  {
    if Terminal(b) then None
    else
      var total := EmptyCount(b);
      if total % 2 == 0 then Some(O) else Some(X)
  }

  /** X moves first. */
  lemma InitialPlayer()
    ensures EmptyCells(InitialState()) == set i, j | 0 <= i < 3 && 0 <= j < 3 :: (i, j)
    ensures Player(InitialState()) == Some(X)
  {
    var b := InitialState();
    assert (0, 0) in EmptyCells(b);
    EmptyCountRows(b);
    var row := [EMPTY, EMPTY, EMPTY];
    assert row[1..][1..][1..] == [];
    assert Occurrences(row[1..][1..], EMPTY) == 1;
    assert Occurrences(row[1..], EMPTY) == 2;
    assert Occurrences(row, EMPTY) == 3;
    assert b[0] == row && b[1] == row && b[2] == row;
    assert !ThreeInARow(b, X) && !ThreeInARow(b, O);
  }

  // ---------------------------------------------------------------------
  // Moves
  // ---------------------------------------------------------------------

  /** `result`: a new board with the mover's mark at (i, j), or the exception raised. */
  function Result(b: Board, action: Action): (r: Result<Board, MoveError>)
    requires IsBoard(b)
    ensures !(0 <= action.0 < 3 && 0 <= action.1 < 3) ==> r == Failure(InvalidMove)
    ensures 0 <= action.0 < 3 && 0 <= action.1 < 3 ==>
              (r.Failure? <==> b[action.0][action.1] != EMPTY) && (r.Failure? ==> r.error == InvalidAction)
    ensures r.Success? ==>
              && IsBoard(r.value)
              && r.value[action.0][action.1] == Player(b)
              && forall i, j :: 0 <= i < 3 && 0 <= j < 3 && (i, j) != action ==> r.value[i][j] == b[i][j]
  {
    var (i, j) := action;
    if !(0 <= i < 3) || !(0 <= j < 3) then Failure(InvalidMove)
    else if b[i][j] != EMPTY then Failure(InvalidAction)
    else Success(b[i := b[i][j := Player(b)]])
  }

  lemma {:induction false} OccurrencesAfterFill(row: seq<Cell>, j: nat, c: Cell)
    requires j < |row| && row[j] == EMPTY && c != EMPTY
    ensures Occurrences(row[j := c], EMPTY) == Occurrences(row, EMPTY) - 1
  {
    if j > 0 {
      OccurrencesAfterFill(row[1..], j - 1, c);
      assert row[j := c][1..] == row[1..][j - 1 := c];
    }
  }

  /** The mark of the player to move on an unfinished board. */
  function Mover(b: Board): Mark
    requires IsBoard(b)
  {
    if EmptyCount(b) % 2 == 0 then O else X
  }

  /** The board after a legal move on an unfinished board. */
  function Successor(b: Board, a: Action): (r: Board)
    requires IsBoard(b) && !Terminal(b) && a in EmptyCells(b)
    ensures IsBoard(r)
    ensures EmptyCount(r) == EmptyCount(b) - 1
  {
    var r := b[a.0 := b[a.0][a.1 := Some(Mover(b))]];
    EmptyCountRows(b);
    EmptyCountRows(r);
    OccurrencesAfterFill(b[a.0], a.1, Some(Mover(b)));
    r
  }

  /** On an unfinished board, `result` of a legal move is the successor board. */
  lemma ResultOfLegalMove(b: Board, a: Action)
    requires IsBoard(b) && !Terminal(b) && a in EmptyCells(b)
    ensures Result(b, a) == Success(Successor(b, a))
  {
  }

  /** On a board that is already won, `result` leaves an empty cell empty: `player` is `None` there. */
  lemma MoveOnFinishedBoard(b: Board, a: Action)
    requires IsBoard(b) && Terminal(b) && a in EmptyCells(b)
    ensures Result(b, a) == Success(b)
  {
    assert b[a.0][a.1 := Player(b)] == b[a.0];
    assert b[a.0 := b[a.0]] == b;
  }

  /** Turns alternate: after a move that does not end the game, the other player is to move. */
  lemma PlayersAlternate(b: Board, a: Action)
    requires IsBoard(b) && !Terminal(b) && a in EmptyCells(b)
    requires !Terminal(Successor(b, a))
    ensures Player(Successor(b, a)) == Some(Opponent(Player(b).value))
  {
  }

  /** `actions`: the set of empty cells, or `None` when there is none. */
  method Actions(b: Board) returns (r: Option<set<Action>>)
    requires IsBoard(b)
    ensures r == if EmptyCells(b) == {} then None else Some(EmptyCells(b))
    ensures r.None? <==> EmptyCount(b) == 0
  {
    FullBoard(b);
    var actionsSet: set<Action> := {};
    for i := 0 to 3
      invariant forall a :: a in actionsSet <==> 0 <= a.0 < i && 0 <= a.1 < 3 && b[a.0][a.1] == EMPTY
    {
      for j := 0 to 3
        invariant forall a :: a in actionsSet <==>
                    (0 <= a.0 < i && 0 <= a.1 < 3 && b[a.0][a.1] == EMPTY) || (a.0 == i && 0 <= a.1 < j && b[i][a.1] == EMPTY)
      {
        if b[i][j] == EMPTY {
          actionsSet := actionsSet + {(i, j)};
        }
      }
    }
    assert actionsSet == EmptyCells(b);
    r := if actionsSet == {} then None else Some(actionsSet);
  }

  // ---------------------------------------------------------------------
  // Game values: the reference the search is proved against
  // ---------------------------------------------------------------------

  /** The minimax value with X to maximise. */
  ghost function MaxValue(b: Board): (v: int)
    requires IsBoard(b)
    ensures -1 <= v <= 1
    decreases EmptyCount(b), 2, 0
  {
    if Terminal(b) then Utility(b)
    else
      FullBoard(b);
      MaxOver(b, EmptyCells(b))
  }

  /** The minimax value with O to minimise. */
  ghost function MinValue(b: Board): (v: int)
    requires IsBoard(b)
    ensures -1 <= v <= 1
    decreases EmptyCount(b), 2, 0
  {
    if Terminal(b) then Utility(b)
    else
      FullBoard(b);
      MinOver(b, EmptyCells(b))
  }

  /** Some move of a non-empty set: the order in which the search meets the moves is left open. */
  ghost function Pick(s: set<Action>): (a: Action)
    requires s != {}
    ensures a in s
  {
    var a :| a in s; a
  }

  /** The value of the move `a` for X: the board after it, valued with O to move. */
  ghost function MoveValueForX(b: Board, a: Action): (v: int)
    requires IsBoard(b) && !Terminal(b) && a in EmptyCells(b)
    ensures -1 <= v <= 1
    decreases EmptyCount(b), 0, 0
  {
    MinValue(Successor(b, a))
  }

  /** The value of the move `a` for O: the board after it, valued with X to move. */
  ghost function MoveValueForO(b: Board, a: Action): (v: int)
    requires IsBoard(b) && !Terminal(b) && a in EmptyCells(b)
    ensures -1 <= v <= 1
    decreases EmptyCount(b), 0, 0
  {
    MaxValue(Successor(b, a))
  }

  /** The best value for X among the moves in `s`; `-INF` when there is none. */
  ghost function MaxOver(b: Board, s: set<Action>): (r: int)
    requires IsBoard(b) && !Terminal(b) && s <= EmptyCells(b)
    ensures s == {} ==> r == -INF
    ensures s != {} ==> -1 <= r <= 1
    decreases EmptyCount(b), 1, |s|
  {
    if s == {} then -INF
    else
      var a := Pick(s);
      Max(MoveValueForX(b, a), MaxOver(b, s - {a}))
  }

  /** The best value for O among the moves in `s`; `INF` when there is none. */
  ghost function MinOver(b: Board, s: set<Action>): (r: int)
    requires IsBoard(b) && !Terminal(b) && s <= EmptyCells(b)
    ensures s == {} ==> r == INF
    ensures s != {} ==> -1 <= r <= 1
    decreases EmptyCount(b), 1, |s|
  {
    if s == {} then INF
    else
      var a := Pick(s);
      Min(MoveValueForO(b, a), MinOver(b, s - {a}))
  }

  /** `MaxOver` is the largest value of a move in `s`, attained by one of them. */
  lemma {:induction false} MaxOverIsBest(b: Board, s: set<Action>)
    requires IsBoard(b) && !Terminal(b) && s <= EmptyCells(b)
    ensures s != {} ==> exists a :: a in s && MaxOver(b, s) == MoveValueForX(b, a)
    ensures forall a :: a in s ==> MoveValueForX(b, a) <= MaxOver(b, s)
    decreases s
  {
    if s != {} {
      var a := Pick(s);
      MaxOverIsBest(b, s - {a});
    }
  }

  /** `MinOver` is the smallest value of a move in `s`, attained by one of them. */
  lemma {:induction false} MinOverIsBest(b: Board, s: set<Action>)
    requires IsBoard(b) && !Terminal(b) && s <= EmptyCells(b)
    ensures s != {} ==> exists a :: a in s && MinOver(b, s) == MoveValueForO(b, a)
    ensures forall a :: a in s ==> MinOver(b, s) <= MoveValueForO(b, a)
    decreases s
  {
    if s != {} {
      var a := Pick(s);
      MinOverIsBest(b, s - {a});
    }
  }

  /** Adding a move to `s` combines its value with the best value over `s`. */
  lemma MaxOverAdd(b: Board, s: set<Action>, a: Action)
    requires IsBoard(b) && !Terminal(b) && s <= EmptyCells(b) && a in EmptyCells(b)
    ensures MaxOver(b, s + {a}) == Max(MaxOver(b, s), MoveValueForX(b, a))
  {
    var t := s + {a};
    MaxOverIsBest(b, s);
    MaxOverIsBest(b, t);
    assert a in t;
    assert MoveValueForX(b, a) <= MaxOver(b, t);
    var w :| w in t && MaxOver(b, t) == MoveValueForX(b, w);
    if w != a {
      assert w in s;
    }
    if s != {} {
      var u :| u in s && MaxOver(b, s) == MoveValueForX(b, u);
      assert u in t;
    }
  }

  lemma MinOverAdd(b: Board, s: set<Action>, a: Action)
    requires IsBoard(b) && !Terminal(b) && s <= EmptyCells(b) && a in EmptyCells(b)
    ensures MinOver(b, s + {a}) == Min(MinOver(b, s), MoveValueForO(b, a))
  {
    var t := s + {a};
    MinOverIsBest(b, s);
    MinOverIsBest(b, t);
    assert a in t;
    assert MoveValueForO(b, a) >= MinOver(b, t);
    var w :| w in t && MinOver(b, t) == MoveValueForO(b, w);
    if w != a {
      assert w in s;
    }
    if s != {} {
      var u :| u in s && MinOver(b, s) == MoveValueForO(b, u);
      assert u in t;
    }
  }

  /** Considering more moves can only help the player choosing among them. */
  lemma MaxOverMonotone(b: Board, s: set<Action>, t: set<Action>)
    requires IsBoard(b) && !Terminal(b) && s <= t <= EmptyCells(b)
    ensures MaxOver(b, s) <= MaxOver(b, t)
  {
    MaxOverIsBest(b, s);
    MaxOverIsBest(b, t);
    if s != {} {
      var u :| u in s && MaxOver(b, s) == MoveValueForX(b, u);
    }
  }

  lemma MinOverMonotone(b: Board, s: set<Action>, t: set<Action>)
    requires IsBoard(b) && !Terminal(b) && s <= t <= EmptyCells(b)
    ensures MinOver(b, t) <= MinOver(b, s)
  {
    MinOverIsBest(b, s);
    MinOverIsBest(b, t);
    if s != {} {
      var u :| u in s && MinOver(b, s) == MoveValueForO(b, u);
    }
  }

  // ---------------------------------------------------------------------
  // Alpha-beta search
  // ---------------------------------------------------------------------

  /**
   * `min_player`: O's value of the board, pruned against `alpha`, the best
   * score the maximising caller already has.  The result is exact when it
   * matters to the caller, and otherwise a bound at or below `alpha`.
   */
  method MinPlayer(b: Board, alpha: int) returns (v: int)
    requires IsBoard(b)
    ensures Terminal(b) ==> v == Utility(b)
    ensures -1 <= v <= 1
    ensures MinValue(b) > alpha ==> v == MinValue(b)
    ensures MinValue(b) <= alpha ==> MinValue(b) <= v <= alpha
    decreases EmptyCount(b)
  {
    if Terminal(b) {
      return Utility(b);
    }
    var possibleActions := Actions(b);
    var remaining := possibleActions.value;
    ghost var seen: set<Action> := {};
    var minPoint := INF;
    var bound := alpha;
    while remaining != {}
      invariant remaining + seen == EmptyCells(b) && remaining !! seen
      invariant bound == alpha
      invariant minPoint == MinOver(b, seen)
      decreases remaining
    {
      var action :| action in remaining;
      var child := Successor(b, action);
      var score := MaxPlayer(child, minPoint);
      MinOverAdd(b, seen, action);
      minPoint := Min(minPoint, score);
      seen := seen + {action};
      remaining := remaining - {action};
      if minPoint <= bound {
        MinOverMonotone(b, seen, EmptyCells(b));
        break;
      }
      bound := Min(bound, minPoint);
    }
    v := minPoint;
  }

  /**
   * `max_player`: X's value of the board, pruned against `beta`, the best
   * score the minimising caller already has.
   */
  method MaxPlayer(b: Board, beta: int) returns (v: int)
    requires IsBoard(b)
    ensures Terminal(b) ==> v == Utility(b)
    ensures -1 <= v <= 1
    ensures MaxValue(b) < beta ==> v == MaxValue(b)
    ensures MaxValue(b) >= beta ==> beta <= v <= MaxValue(b)
    decreases EmptyCount(b)
  {
    if Terminal(b) {
      return Utility(b);
    }
    var possibleActions := Actions(b);
    var remaining := possibleActions.value;
    ghost var seen: set<Action> := {};
    var maxPoint := -INF;
    var bound := beta;
    while remaining != {}
      invariant remaining + seen == EmptyCells(b) && remaining !! seen
      invariant bound == beta
      invariant maxPoint == MaxOver(b, seen)
      decreases remaining
    {
      var action :| action in remaining;
      var child := Successor(b, action);
      var score := MinPlayer(child, maxPoint);
      MaxOverAdd(b, seen, action);
      maxPoint := Max(maxPoint, score);
      seen := seen + {action};
      remaining := remaining - {action};
      if maxPoint >= bound {
        MaxOverMonotone(b, seen, EmptyCells(b));
        break;
      }
      bound := Max(bound, maxPoint);
    }
    v := maxPoint;
  }

  /** Python's `max(current, candidate, key=score)`: the candidate replaces the current best only when strictly better. */
  function BetterForX(current: (int, Option<Action>), candidate: (int, Option<Action>)): (int, Option<Action>)
  {
    if candidate.0 > current.0 then candidate else current
  }

  /** Python's `min(current, candidate, key=score)`. */
  function BetterForO(current: (int, Option<Action>), candidate: (int, Option<Action>)): (int, Option<Action>)
  {
    if candidate.0 < current.0 then candidate else current
  }

  /** `minimax`: no move on a finished board; otherwise an optimal move for the player to move. */
  method Minimax(b: Board) returns (r: Option<Action>)
    requires IsBoard(b)
    ensures r.None? <==> Terminal(b)
    ensures r.Some? ==> r.value in EmptyCells(b)
    ensures r.Some? && Player(b) == Some(X) ==> MinValue(Successor(b, r.value)) == MaxValue(b)
    ensures r.Some? && Player(b) == Some(O) ==> MaxValue(Successor(b, r.value)) == MinValue(b)
  {
    if Terminal(b) {
      return None;
    }
    var aiPlayer := Player(b);
    if aiPlayer == Some(X) {
      var action := BestMoveForX(b);
      return Some(action);
    }
    var action := BestMoveForO(b);
    return Some(action);
  }

  /** The X branch of `minimax`: the first move, in iteration order, of the highest score. */
  method BestMoveForX(b: Board) returns (best: Action)
    requires IsBoard(b) && !Terminal(b)
    ensures best in EmptyCells(b)
    ensures MinValue(Successor(b, best)) == MaxValue(b)
  {
    var possibleActions := Actions(b);
    var remaining := possibleActions.value;
    ghost var seen: set<Action> := {};
    var optimalDecision: (int, Option<Action>) := (-INF, None);
    while remaining != {}
      invariant remaining + seen == EmptyCells(b) && remaining !! seen
      invariant optimalDecision.0 == MaxOver(b, seen)
      invariant seen != {} ==> optimalDecision.1.Some? && optimalDecision.1.value in seen
                               && MoveValueForX(b, optimalDecision.1.value) == optimalDecision.0
      decreases remaining
    {
      var action :| action in remaining;
      var child := Successor(b, action);
      var actionScore := MinPlayer(child, optimalDecision.0);
      MaxOverAdd(b, seen, action);
      optimalDecision := BetterForX(optimalDecision, (actionScore, Some(action)));
      seen := seen + {action};
      remaining := remaining - {action};
    }
    best := optimalDecision.1.value;
  }

  /** The O branch of `minimax`: the first move, in iteration order, of the lowest score. */
  method BestMoveForO(b: Board) returns (best: Action)
    requires IsBoard(b) && !Terminal(b)
    ensures best in EmptyCells(b)
    ensures MaxValue(Successor(b, best)) == MinValue(b)
  {
    var possibleActions := Actions(b);
    var remaining := possibleActions.value;
    ghost var seen: set<Action> := {};
    var optimalDecision: (int, Option<Action>) := (INF, None);
    while remaining != {}
      invariant remaining + seen == EmptyCells(b) && remaining !! seen
      invariant optimalDecision.0 == MinOver(b, seen)
      invariant seen != {} ==> optimalDecision.1.Some? && optimalDecision.1.value in seen
                               && MoveValueForO(b, optimalDecision.1.value) == optimalDecision.0
      decreases remaining
    {
      var action :| action in remaining;
      var child := Successor(b, action);
      var actionScore := MaxPlayer(child, optimalDecision.0);
      MinOverAdd(b, seen, action);
      optimalDecision := BetterForO(optimalDecision, (actionScore, Some(action)));
      seen := seen + {action};
      remaining := remaining - {action};
    }
    best := optimalDecision.1.value;
  }
}
