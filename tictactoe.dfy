/** The rules of tic-tac-toe on a 3x3 board and the minimax search over its game tree. */
module TicTacToe {
  import opened Wrappers

  /** What a cell holds. The Python source uses `None` both for an empty cell and for
      "no player" (the answer of `player` on a finished game), so Empty plays both roles. */
  datatype Mark = X | O | Empty

  predicate IsGrid(b: seq<seq<Mark>>)
  {
    |b| == 3 && |b[0]| == 3 && |b[1]| == 3 && |b[2]| == 3
  }

  /** The board: a list of three rows of three cells. */
  type Board = b: seq<seq<Mark>> | IsGrid(b)
    witness [[Empty, Empty, Empty], [Empty, Empty, Empty], [Empty, Empty, Empty]]

  /** A move `(i, j)`: row i, column j. */
  type Action = (int, int)

  predicate OnBoard(a: Action)
  {
    0 <= a.0 < 3 && 0 <= a.1 < 3
  }

  /** The cells holding `m`. */
  function Marks(b: Board, m: Mark): set<Action>
  {
    set i, j | 0 <= i < 3 && 0 <= j < 3 && b[i][j] == m :: (i, j)
  }

  /** The empty cells: what `actions` collects. */
  function EmptyCells(b: Board): set<Action>
  {
    Marks(b, Empty)
  }

  // ---------------------------------------------------------------------------------------------
  // Counting marks as `player` does: the sum over the rows of `row.count(m)`

  /** Python's `row.count(m)`. */
  function Count(row: seq<Mark>, m: Mark): nat
  {
    if row == [] then 0 else Count(row[..|row| - 1], m) + (if row[|row| - 1] == m then 1 else 0)
  }

  /** The loop `for row in board: count += row.count(m)`. */
  function Tally(rows: seq<seq<Mark>>, m: Mark): nat
  {
    if rows == [] then 0 else Tally(rows[..|rows| - 1], m) + Count(rows[|rows| - 1], m)
  }

  /** The cells `(i, j)` with `j < n` of row i that hold `m`. */
  function RowMarks(i: int, row: seq<Mark>, m: Mark, n: nat): set<Action>
    requires n <= |row|
  {
    set j | 0 <= j < n && row[j] == m :: (i, j)
  }

  /** One more cell of a row: `row.count(m)` goes up by one exactly when that cell holds `m`. */
  lemma CountStep(row: seq<Mark>, m: Mark, n: nat)
    requires 0 < n <= |row|
    ensures Count(row[..n], m) == Count(row[..n - 1], m) + (if row[n - 1] == m then 1 else 0)
  {
    assert row[..n][..n - 1] == row[..n - 1];
  }

  lemma RowMarksStep(i: int, row: seq<Mark>, m: Mark, n: nat)
    requires 0 < n <= |row|
    ensures |RowMarks(i, row, m, n)| == |RowMarks(i, row, m, n - 1)| + (if row[n - 1] == m then 1 else 0)
  {
    var prev := RowMarks(i, row, m, n - 1);
    assert (i, n - 1) !in prev;
    if row[n - 1] == m {
      forall x | x in RowMarks(i, row, m, n) ensures x in prev + {(i, n - 1)} {
        var j :| 0 <= j < n && row[j] == m && x == (i, j);
        if j < n - 1 { assert x in prev; }
      }
      assert RowMarks(i, row, m, n) == prev + {(i, n - 1)};
    } else {
      forall x | x in RowMarks(i, row, m, n) ensures x in prev {
        var j :| 0 <= j < n && row[j] == m && x == (i, j);
      }
      assert RowMarks(i, row, m, n) == prev;
    }
  }

  lemma {:induction false} CountIsRowMarks(i: int, row: seq<Mark>, m: Mark, n: nat)
    requires n <= |row|
    ensures Count(row[..n], m) == |RowMarks(i, row, m, n)|
  {
    if n > 0 {
      CountIsRowMarks(i, row, m, n - 1);
      CountStep(row, m, n);
      RowMarksStep(i, row, m, n);
    } else {
      assert RowMarks(i, row, m, 0) == {};
    }
  }

  /** The marked cells of the board, row by row. */
  lemma MarksByRow(b: Board, m: Mark)
    ensures Marks(b, m) == RowMarks(0, b[0], m, 3) + RowMarks(1, b[1], m, 3) + RowMarks(2, b[2], m, 3)
  {
    forall a | a in Marks(b, m)
      ensures a in RowMarks(0, b[0], m, 3) + RowMarks(1, b[1], m, 3) + RowMarks(2, b[2], m, 3)
    {
      assert a in RowMarks(a.0, b[a.0], m, 3);
    }
  }

  /** The loop of `player` adds the three rows' counts. */
  lemma TallyByRow(b: Board, m: Mark)
    ensures Tally(b, m) == Count(b[0], m) + Count(b[1], m) + Count(b[2], m)
  {
    assert b[..2][..1] == b[..1] && b[..1][..0] == [];
    assert Tally(b, m) == Tally(b[..2], m) + Count(b[2], m);
    assert Tally(b[..2], m) == Tally(b[..1], m) + Count(b[1], m);
  }

  /** `row.count(m)` on a row of the board is the number of that row's cells holding `m`. */
  lemma CountRow(b: Board, i: nat, m: Mark)
    requires i < 3
    ensures Count(b[i], m) == |RowMarks(i, b[i], m, 3)|
  {
    CountIsRowMarks(i, b[i], m, 3);
    assert b[i][..3] == b[i];
  }

  /** The counters `x_count` and `o_count` of `player` are the numbers of X and O cells. */
  lemma TallyCountsMarks(b: Board, m: Mark)
    ensures Tally(b, m) == |Marks(b, m)|
  {
    TallyByRow(b, m);
    CountRow(b, 0, m);
    CountRow(b, 1, m);
    CountRow(b, 2, m);
    MarksByRow(b, m);
    var r0, r1, r2 := RowMarks(0, b[0], m, 3), RowMarks(1, b[1], m, 3), RowMarks(2, b[2], m, 3);
    assert r0 !! r1 && (r0 + r1) !! r2;
  }

  // ---------------------------------------------------------------------------------------------
  // The rule functions

  /** `initial_state`: the empty board. */
  function InitialState(): (b: Board)
    ensures forall i, j :: 0 <= i < 3 && 0 <= j < 3 ==> b[i][j] == Empty
  {
    [[Empty, Empty, Empty], [Empty, Empty, Empty], [Empty, Empty, Empty]]
  }

  /** `actions`: its nested loop adds each empty cell `(i, j)` to `possible_actions`. */
  method Actions(b: Board) returns (possible: set<Action>)
    ensures possible == EmptyCells(b)
  {
    possible := {};
    for i := 0 to 3
      invariant forall a :: a in possible <==> OnBoard(a) && a.0 < i && b[a.0][a.1] == Empty
    {
      for j := 0 to 3
        invariant forall a :: a in possible <==> OnBoard(a) && (a.0 < i || (a.0 == i && a.1 < j)) && b[a.0][a.1] == Empty
      {
        if b[i][j] == Empty {
          possible := possible + {(i, j)};
        }
      }
    }
  }

  /** Python's `line.count(m) == 3` on a line of three cells. */
  predicate Three(line: seq<Mark>, m: Mark)
    requires |line| == 3
  {
    line[0] == m && line[1] == m && line[2] == m
  }

  lemma ThreeIsCountThree(line: seq<Mark>, m: Mark)
    requires |line| == 3
    ensures Three(line, m) <==> Count(line, m) == 3
  {
    assert line[..2][..1] == line[..1];
    assert line[..1][..0] == [];
    assert Count(line, m) == Count(line[..2], m) + (if line[2] == m then 1 else 0);
    assert Count(line[..2], m) == Count(line[..1], m) + (if line[1] == m then 1 else 0);
    assert Count(line[..1], m) == (if line[0] == m then 1 else 0);
  }

  function Column(b: Board, j: nat): (c: seq<Mark>)
    requires j < 3
    ensures |c| == 3
  {
    [b[0][j], b[1][j], b[2][j]]
  }

  function Diagonal1(b: Board): (d: seq<Mark>)
    ensures |d| == 3
  {
    [b[0][0], b[1][1], b[2][2]]
  }

  function Diagonal2(b: Board): (d: seq<Mark>)
    ensures |d| == 3
  {
    [b[0][2], b[1][1], b[2][0]]
  }

  /** The eight lines of the board: three rows, three columns, two diagonals. */
  function Lines(b: Board): (ls: seq<seq<Mark>>)
    ensures |ls| == 8 && forall k :: 0 <= k < 8 ==> |ls[k]| == 3
  {
    [b[0], b[1], b[2], Column(b, 0), Column(b, 1), Column(b, 2), Diagonal1(b), Diagonal2(b)]
  }

  /** Mark `m` holds all three cells of some line. */
  ghost predicate Complete(b: Board, m: Mark)
  {
    exists k :: 0 <= k < 8 && Three(Lines(b)[k], m)
  }

  /** Row i or column i, the pair that one pass of `winner`'s loop inspects, is all `m`. */
  predicate RowOrColumn(b: Board, i: nat, m: Mark)
    requires i < 3
  {
    Three(b[i], m) || Three(Column(b, i), m)
  }

  /** The loop over rows and columns in `winner`: a later index overrides an earlier one, and
      within one index an O line is tested before an X line. */
  function WinnerFrom(b: Board, i: nat, won: Mark): Mark
    requires i <= 3
    decreases 3 - i
  {
    if i == 3 then won
    else
      var won' :=
        if RowOrColumn(b, i, O) then O
        else if RowOrColumn(b, i, X) then X
        else won;
      WinnerFrom(b, i + 1, won')
  }

  /** The loop of `winner` ends with the mark it started with or with a mark holding a row or
      column from index i on; it ends with a mark whenever it started with one or such a line
      exists. */
  lemma {:induction false} WinnerFromLines(b: Board, i: nat, won: Mark)
    requires i <= 3
    decreases 3 - i
    ensures WinnerFrom(b, i, won) == won
         || exists i' :: i <= i' < 3 && WinnerFrom(b, i, won) != Empty && RowOrColumn(b, i', WinnerFrom(b, i, won))
    ensures won != Empty ==> WinnerFrom(b, i, won) != Empty
    ensures (exists i' :: i <= i' < 3 && (RowOrColumn(b, i', X) || RowOrColumn(b, i', O))) ==> WinnerFrom(b, i, won) != Empty
  {
    if i < 3 {
      var won' :=
        if RowOrColumn(b, i, O) then O
        else if RowOrColumn(b, i, X) then X
        else won;
      WinnerFromLines(b, i + 1, won');
    }
  }

  /** `winner`: X, O, or Empty for "no winner". After the loop an O diagonal overrides, and
      then an X diagonal overrides that. */
  function Winner(b: Board): Mark
  {
    var won := WinnerFrom(b, 0, Empty);
    var won' := if Three(Diagonal1(b), O) || Three(Diagonal2(b), O) then O else won;
    if Three(Diagonal1(b), X) || Three(Diagonal2(b), X) then X else won'
  }

  /** A winner holds a whole line. */
  lemma WinnerIsComplete(b: Board)
    ensures Winner(b) != Empty ==> Complete(b, Winner(b))
  {
    var won := WinnerFrom(b, 0, Empty);
    var won' := if Three(Diagonal1(b), O) || Three(Diagonal2(b), O) then O else won;
    var r := Winner(b);
    WinnerFromLines(b, 0, Empty);
    if r != Empty && r != won' {
      assert Three(Lines(b)[6], X) || Three(Lines(b)[7], X);
    } else if r != Empty && won' != won {
      assert Three(Lines(b)[6], O) || Three(Lines(b)[7], O);
    } else if r != Empty {
      var i' :| 0 <= i' < 3 && RowOrColumn(b, i', r);
      assert Three(Lines(b)[i'], r) || Three(Lines(b)[3 + i'], r);
    }
  }

  /** A complete line of either mark makes a winner. */
  lemma CompleteHasWinner(b: Board, m: Mark)
    requires m != Empty && Complete(b, m)
    ensures Winner(b) != Empty
  {
    WinnerFromLines(b, 0, Empty);
    var k :| 0 <= k < 8 && Three(Lines(b)[k], m);
    if k < 3 {
      assert RowOrColumn(b, k, m);
    } else if k < 6 {
      assert RowOrColumn(b, k - 3, m);
    }
  }

  /** A winner holds a whole line, and there is a winner exactly when some mark holds one. */
  lemma WinnerHoldsALine(b: Board)
    ensures Winner(b) != Empty ==> Complete(b, Winner(b))
    ensures Winner(b) == Empty <==> !Complete(b, X) && !Complete(b, O)
  {
    WinnerIsComplete(b);
    if Complete(b, X) {
      CompleteHasWinner(b, X);
    }
    if Complete(b, O) {
      CompleteHasWinner(b, O);
    }
  }

  /** `terminal`: somebody has won, or no row holds an EMPTY cell. */
  function Terminal(b: Board): bool
  {
    Winner(b) != Empty || (Empty !in b[0] && Empty !in b[1] && Empty !in b[2])
  }

  /** A board is terminal exactly when it has a winner or no action is left. */
  lemma TerminalIffNoMoves(b: Board)
    ensures Terminal(b) <==> Winner(b) != Empty || EmptyCells(b) == {}
  {
    if EmptyCells(b) != {} {
      var a :| a in EmptyCells(b);
      assert Empty in b[a.0];
    } else {
      forall i, j | 0 <= i < 3 && 0 <= j < 3 ensures b[i][j] != Empty {
        assert (i, j) !in EmptyCells(b);
      }
    }
  }

  /** `player`: Empty (Python's `None`) once the game is over; otherwise X when the counters
      `x_count` and `o_count` agree and O when they differ. X moves exactly when the players
      hold as many cells each. */
  function Player(b: Board): (r: Mark)
    ensures r == Empty <==> Terminal(b)
    ensures !Terminal(b) ==> (r == X <==> |Marks(b, X)| == |Marks(b, O)|)
  {
    TallyCountsMarks(b, X);
    TallyCountsMarks(b, O);
    if Terminal(b) then Empty
    else if Tally(b, X) == Tally(b, O) then X
    else O
  }

  /** The outcome of `result`: the new board, or the `ValueError` it raises. */
  datatype MoveResult = Moved(board: Board) | InvalidAction

  /** `result`: a copy of the board with the action's cell set to `player(board)`. */
  function Result(b: Board, a: Action): (r: MoveResult)
    ensures r.InvalidAction? <==> a !in EmptyCells(b)
    ensures r.Moved? ==> r.board[a.0][a.1] == Player(b)
    ensures r.Moved? ==> forall i, j :: 0 <= i < 3 && 0 <= j < 3 && (i, j) != a ==> r.board[i][j] == b[i][j]
  {
    if a !in EmptyCells(b) then InvalidAction
    else Moved(b[a.0 := b[a.0][a.1 := Player(b)]])
  }

  /** A move changes exactly one cell: it leaves the marks of `m` as they were, plus the action's
      cell when `m` is the player's mark, minus it when `m` is Empty. */
  lemma ResultMarks(b: Board, a: Action, m: Mark)
    requires a in EmptyCells(b)
    ensures Marks(Result(b, a).board, m)
         == if m == Player(b) then Marks(b, m) + {a} else if m == Empty then Marks(b, m) - {a} else Marks(b, m)
  {
  }

  /** A move on a board that is not over fills one empty cell. */
  lemma ResultFillsACell(b: Board, a: Action)
    requires !Terminal(b) && a in EmptyCells(b)
    ensures |EmptyCells(Result(b, a).board)| + 1 == |EmptyCells(b)|
  {
    ResultMarks(b, a, Empty);
  }

  /** `utility`: 1 when X has won, -1 when O has won, 0 otherwise. */
  function Utility(b: Board): (r: int)
    ensures r == 1 || r == -1 || r == 0
  {
    if Winner(b) == X then 1
    else if Winner(b) == O then -1
    else 0
  }

  /** The utility read off the lines: 1 only if X holds a line, -1 only if O does, and 0 exactly
      when neither does. */
  lemma UtilityFromLines(b: Board)
    ensures Utility(b) == 1 ==> Complete(b, X)
    ensures Utility(b) == -1 ==> Complete(b, O)
    ensures Utility(b) == 0 <==> !Complete(b, X) && !Complete(b, O)
  {
    WinnerHoldsALine(b);
  }

  // ---------------------------------------------------------------------------------------------
  // Minimax

  /** Stand-ins for `-math.inf` and `math.inf`: below and above every utility. */
  const NegInf: int := -2
  const PosInf: int := 2

  function Max(a: int, b: int): int { if a < b then b else a }
  function Min(a: int, b: int): int { if a < b then a else b }

  /** Position k of the row-major visiting order, the order in which the nested loops of
      `actions` add the cells. */
  function CellAt(k: int): Action
  {
    (k / 3, k % 3)
  }

  /** Where an action comes in the visiting order. */
  function Position(a: Action): int
  {
    3 * a.0 + a.1
  }

  lemma PositionOfAction(b: Board, a: Action)
    requires a in EmptyCells(b)
    ensures 0 <= Position(a) < 9 && CellAt(Position(a)) == a
  {
  }

  /** `min_value(result(board, action))`, the value `max_value` folds over. */
  function MinValueAfter(b: Board, a: Action): int
    requires !Terminal(b) && a in EmptyCells(b)
    decreases |EmptyCells(b)|, 0, 0
  {
    ResultFillsACell(b, a);
    MinValue(Result(b, a).board)
  }

  /** `max_value(result(board, action))`, the value `min_value` folds over. */
  function MaxValueAfter(b: Board, a: Action): int
    requires !Terminal(b) && a in EmptyCells(b)
    decreases |EmptyCells(b)|, 0, 0
  {
    ResultFillsACell(b, a);
    MaxValue(Result(b, a).board)
  }

  /** The loop of `max_value`, `v = max(v, min_value(result(board, action)))`, over the actions
      from position k of the visiting order on. */
  function MaxFold(b: Board, k: nat, v: int): int
    requires k <= 9 && !Terminal(b)
    decreases |EmptyCells(b)|, 0, 9 - k
  {
    if k == 9 then v
    else if CellAt(k) in EmptyCells(b) then MaxFold(b, k + 1, Max(v, MinValueAfter(b, CellAt(k))))
    else MaxFold(b, k + 1, v)
  }

  /** The loop of `min_value`, `v = min(v, max_value(result(board, action)))`. */
  function MinFold(b: Board, k: nat, v: int): int
    requires k <= 9 && !Terminal(b)
    decreases |EmptyCells(b)|, 0, 9 - k
  {
    if k == 9 then v
    else if CellAt(k) in EmptyCells(b) then MinFold(b, k + 1, Min(v, MaxValueAfter(b, CellAt(k))))
    else MinFold(b, k + 1, v)
  }

  /** `max_value`: the value of the board for X, who maximises. */
  function MaxValue(b: Board): int
    decreases |EmptyCells(b)|, 1, 0
  {
    if Terminal(b) then Utility(b) else MaxFold(b, 0, NegInf)
  }

  /** `min_value`: the value of the board for O, who minimises. */
  function MinValue(b: Board): int
    decreases |EmptyCells(b)|, 1, 0
  {
    if Terminal(b) then Utility(b) else MinFold(b, 0, PosInf)
  }

  /** The fold of `max_value` ends at or above its start value and every action's value from
      position k on. */
  lemma {:induction false} MaxFoldBounds(b: Board, k: nat, v: int)
    requires k <= 9 && !Terminal(b)
    decreases 9 - k
    ensures v <= MaxFold(b, k, v)
    ensures forall a :: a in EmptyCells(b) && k <= Position(a) ==> MinValueAfter(b, a) <= MaxFold(b, k, v)
  {
    if k < 9 {
      var v' := if CellAt(k) in EmptyCells(b) then Max(v, MinValueAfter(b, CellAt(k))) else v;
      MaxFoldBounds(b, k + 1, v');
      assert MaxFold(b, k, v) == MaxFold(b, k + 1, v');
      forall a | a in EmptyCells(b) && k <= Position(a) ensures MinValueAfter(b, a) <= MaxFold(b, k, v) {
        if Position(a) == k {
          PositionOfAction(b, a);
        }
      }
    }
  }

  /** The fold of `max_value` ends at its start value or at the value of an action from
      position k on. */
  lemma {:induction false} MaxFoldAttained(b: Board, k: nat, v: int)
    requires k <= 9 && !Terminal(b)
    decreases 9 - k
    ensures MaxFold(b, k, v) == v
         || exists a :: a in EmptyCells(b) && k <= Position(a) && MaxFold(b, k, v) == MinValueAfter(b, a)
  {
    if k < 9 {
      var v' := if CellAt(k) in EmptyCells(b) then Max(v, MinValueAfter(b, CellAt(k))) else v;
      MaxFoldAttained(b, k + 1, v');
      assert MaxFold(b, k, v) == MaxFold(b, k + 1, v');
      if MaxFold(b, k, v) != v && MaxFold(b, k, v) == v' {
        assert Position(CellAt(k)) == k;
      }
    }
  }

  /** The fold of `min_value` ends at or below its start value and every action's value from
      position k on. */
  lemma {:induction false} MinFoldBounds(b: Board, k: nat, v: int)
    requires k <= 9 && !Terminal(b)
    decreases 9 - k
    ensures MinFold(b, k, v) <= v
    ensures forall a :: a in EmptyCells(b) && k <= Position(a) ==> MinFold(b, k, v) <= MaxValueAfter(b, a)
  {
    if k < 9 {
      var v' := if CellAt(k) in EmptyCells(b) then Min(v, MaxValueAfter(b, CellAt(k))) else v;
      MinFoldBounds(b, k + 1, v');
      assert MinFold(b, k, v) == MinFold(b, k + 1, v');
      forall a | a in EmptyCells(b) && k <= Position(a) ensures MinFold(b, k, v) <= MaxValueAfter(b, a) {
        if Position(a) == k {
          PositionOfAction(b, a);
        }
      }
    }
  }

  /** The fold of `min_value` ends at its start value or at the value of an action from
      position k on. */
  lemma {:induction false} MinFoldAttained(b: Board, k: nat, v: int)
    requires k <= 9 && !Terminal(b)
    decreases 9 - k
    ensures MinFold(b, k, v) == v
         || exists a :: a in EmptyCells(b) && k <= Position(a) && MinFold(b, k, v) == MaxValueAfter(b, a)
  {
    if k < 9 {
      var v' := if CellAt(k) in EmptyCells(b) then Min(v, MaxValueAfter(b, CellAt(k))) else v;
      MinFoldAttained(b, k + 1, v');
      assert MinFold(b, k, v) == MinFold(b, k + 1, v');
      if MinFold(b, k, v) != v && MinFold(b, k, v) == v' {
        assert Position(CellAt(k)) == k;
      }
    }
  }

  /** `max_value` of a live board is between the smallest and the largest action value. */
  lemma MaxValueInRange(b: Board)
    requires !Terminal(b)
    requires forall a :: a in EmptyCells(b) ==> -1 <= MinValueAfter(b, a) <= 1
    ensures -1 <= MaxValue(b) <= 1
  {
    TerminalIffNoMoves(b);
    var a :| a in EmptyCells(b);
    PositionOfAction(b, a);
    MaxFoldBounds(b, 0, NegInf);
    MaxFoldAttained(b, 0, NegInf);
  }

  /** `min_value` of a live board is between the smallest and the largest action value. */
  lemma MinValueInRange(b: Board)
    requires !Terminal(b)
    requires forall a :: a in EmptyCells(b) ==> -1 <= MaxValueAfter(b, a) <= 1
    ensures -1 <= MinValue(b) <= 1
  {
    TerminalIffNoMoves(b);
    var a :| a in EmptyCells(b);
    PositionOfAction(b, a);
    MinFoldBounds(b, 0, PosInf);
    MinFoldAttained(b, 0, PosInf);
  }

  /** Both values of a board are utilities, -1, 0 or 1, and never a leftover infinity. */
  lemma {:induction false} ValuesAreUtilities(b: Board)
    decreases |EmptyCells(b)|
    ensures -1 <= MaxValue(b) <= 1 && -1 <= MinValue(b) <= 1
  {
    if !Terminal(b) {
      forall a | a in EmptyCells(b)
        ensures -1 <= MinValueAfter(b, a) <= 1 && -1 <= MaxValueAfter(b, a) <= 1
      {
        ResultFillsACell(b, a);
        ValuesAreUtilities(Result(b, a).board);
      }
      MaxValueInRange(b);
      MinValueInRange(b);
    }
  }

  /** On a finished board both values are the utility. */
  lemma TerminalValues(b: Board)
    requires Terminal(b)
    ensures MaxValue(b) == Utility(b) && MinValue(b) == Utility(b)
  {
  }

  /** On a live board no action leads to a larger `min_value` than the board's `max_value`, and
      some action attains it, whatever order the actions are visited in. */
  lemma MaxValueOverActions(b: Board)
    requires !Terminal(b)
    ensures forall a :: a in EmptyCells(b) ==> MinValueAfter(b, a) <= MaxValue(b)
    ensures exists a :: a in EmptyCells(b) && MinValueAfter(b, a) == MaxValue(b)
  {
    ValuesAreUtilities(b);
    forall a | a in EmptyCells(b) ensures 0 <= Position(a) {
      PositionOfAction(b, a);
    }
    MaxFoldBounds(b, 0, NegInf);
    MaxFoldAttained(b, 0, NegInf);
  }

  /** On a live board no action leads to a smaller `max_value` than the board's `min_value`, and
      some action attains it. */
  lemma MinValueOverActions(b: Board)
    requires !Terminal(b)
    ensures forall a :: a in EmptyCells(b) ==> MinValue(b) <= MaxValueAfter(b, a)
    ensures exists a :: a in EmptyCells(b) && MaxValueAfter(b, a) == MinValue(b)
  {
    ValuesAreUtilities(b);
    forall a | a in EmptyCells(b) ensures 0 <= Position(a) {
      PositionOfAction(b, a);
    }
    MinFoldBounds(b, 0, PosInf);
    MinFoldAttained(b, 0, PosInf);
  }

  /** An action no other action beats for X has exactly the board's `max_value`. */
  lemma BestMaxMoveHasMaxValue(b: Board, best: Action)
    requires !Terminal(b) && best in EmptyCells(b)
    requires forall a :: a in EmptyCells(b) ==> MinValueAfter(b, a) <= MinValueAfter(b, best)
    ensures MinValueAfter(b, best) == MaxValue(b)
  {
    MaxValueOverActions(b);
  }

  /** An action no other action beats for O has exactly the board's `min_value`. */
  lemma BestMinMoveHasMinValue(b: Board, best: Action)
    requires !Terminal(b) && best in EmptyCells(b)
    requires forall a :: a in EmptyCells(b) ==> MaxValueAfter(b, best) <= MaxValueAfter(b, a)
    ensures MaxValueAfter(b, best) == MinValue(b)
  {
    MinValueOverActions(b);
  }

  /** `minimax`: no move on a finished board; otherwise an action with the best value for the
      player to move. */
  method Minimax(b: Board) returns (move: Option<Action>)
    ensures move.None? <==> Terminal(b)
    ensures move.Some? ==> move.value in EmptyCells(b)
    ensures move.Some? && Player(b) == X ==>
      forall a :: a in EmptyCells(b) ==> MinValueAfter(b, a) <= MinValueAfter(b, move.value)
    ensures move.Some? && Player(b) == X ==> MinValueAfter(b, move.value) == MaxValue(b)
    ensures move.Some? && Player(b) == O ==>
      forall a :: a in EmptyCells(b) ==> MaxValueAfter(b, move.value) <= MaxValueAfter(b, a)
    ensures move.Some? && Player(b) == O ==> MaxValueAfter(b, move.value) == MinValue(b)
  {
    if Terminal(b) {
      return None;
    }
    if Player(b) == X {
      var a := MaximisingMove(b);
      move := Some(a);
    } else {
      var a := MinimisingMove(b);
      move := Some(a);
    }
  }

  /** The X branch of `minimax`. The loop visits the action set in an arbitrary order, as
      Python's set iteration does, and keeps the first action that strictly improves on the best
      value so far, starting from `-math.inf`. */
  method MaximisingMove(b: Board) returns (best: Action)
    requires !Terminal(b)
    ensures best in EmptyCells(b)
    ensures forall a :: a in EmptyCells(b) ==> MinValueAfter(b, a) <= MinValueAfter(b, best)
    ensures MinValueAfter(b, best) == MaxValue(b)
  {
    TerminalIffNoMoves(b);
    var actions := Actions(b);
    var bestMove: Option<Action> := None;
    var bestValue := NegInf;
    var todo := actions;
    while todo != {}
      invariant todo <= actions
      invariant bestMove.None? ==> bestValue == NegInf && todo == actions
      invariant bestMove.Some? ==> bestMove.value in actions - todo && bestValue == MinValueAfter(b, bestMove.value)
      invariant forall a :: a in actions - todo ==> MinValueAfter(b, a) <= bestValue
      decreases todo
    {
      var a :| a in todo;
      ResultFillsACell(b, a);
      var value := MinValue(Result(b, a).board);
      ValuesAreUtilities(Result(b, a).board);
      assert value == MinValueAfter(b, a);
      if value > bestValue {
        bestValue := value;
        bestMove := Some(a);
      }
      todo := todo - {a};
    }
    best := bestMove.value;
    BestMaxMoveHasMaxValue(b, best);
  }

  /** The O branch of `minimax`, starting from `math.inf` and keeping strict improvements. */
  method MinimisingMove(b: Board) returns (best: Action)
    requires !Terminal(b)
    ensures best in EmptyCells(b)
    ensures forall a :: a in EmptyCells(b) ==> MaxValueAfter(b, best) <= MaxValueAfter(b, a)
    ensures MaxValueAfter(b, best) == MinValue(b)
  {
    TerminalIffNoMoves(b);
    var actions := Actions(b);
    var bestMove: Option<Action> := None;
    var bestValue := PosInf;
    var todo := actions;
    while todo != {}
      invariant todo <= actions
      invariant bestMove.None? ==> bestValue == PosInf && todo == actions
      invariant bestMove.Some? ==> bestMove.value in actions - todo && bestValue == MaxValueAfter(b, bestMove.value)
      invariant forall a :: a in actions - todo ==> bestValue <= MaxValueAfter(b, a)
      decreases todo
    {
      var a :| a in todo;
      ResultFillsACell(b, a);
      var value := MaxValue(Result(b, a).board);
      ValuesAreUtilities(Result(b, a).board);
      assert value == MaxValueAfter(b, a);
      if value < bestValue {
        bestValue := value;
        bestMove := Some(a);
      }
      todo := todo - {a};
    }
    best := bestMove.value;
    BestMinMoveHasMinValue(b, best);
  }

  // ---------------------------------------------------------------------------------------------
  // Properties of the rules

  /** X moves first. */
  lemma InitialPlayerIsX()
    ensures Player(InitialState()) == X
  {
    var b := InitialState();
    WinnerHoldsALine(b);
    assert !Complete(b, X) && !Complete(b, O) by {
      forall k | 0 <= k < 8 ensures !Three(Lines(b)[k], X) && !Three(Lines(b)[k], O) {
        assert Lines(b)[k][0] == Empty;
      }
    }
    assert (0, 0) in EmptyCells(b);
    TerminalIffNoMoves(b);
    assert Marks(b, X) == {} && Marks(b, O) == {};
  }

  /** A move by the player to move adds one of that player's marks and nothing else; with X
      moving first, X is never behind O and never more than one ahead, and, while the game goes
      on, the turn passes to the other player. */
  lemma PlayerAlternates(b: Board, a: Action)
    requires !Terminal(b) && a in EmptyCells(b)
    requires |Marks(b, X)| == |Marks(b, O)| || |Marks(b, X)| == |Marks(b, O)| + 1
    ensures |Marks(Result(b, a).board, X)| == |Marks(Result(b, a).board, O)|
         || |Marks(Result(b, a).board, X)| == |Marks(Result(b, a).board, O)| + 1
    ensures !Terminal(Result(b, a).board) ==> Player(Result(b, a).board) != Player(b)
  {
    ResultMarks(b, a, X);
    ResultMarks(b, a, O);
    assert a !in Marks(b, X) && a !in Marks(b, O);
  }

  /** The quirk of `result` on a finished board: `player` answers Python's `None`, which is
      EMPTY, so "playing" an empty cell leaves the board as it was. */
  lemma ResultOnTerminalBoard(b: Board, a: Action)
    requires Terminal(b) && a in EmptyCells(b)
    ensures Result(b, a) == Moved(b)
  {
    assert b[a.0][a.1 := Empty] == b[a.0];
    assert b[a.0 := b[a.0]] == b;
  }

  /** The two diagonals share the centre, so the override of an O diagonal by an X diagonal in
      `winner` never has two complete diagonals to choose between. */
  lemma DiagonalsNeverSplit(b: Board)
    ensures !((Three(Diagonal1(b), X) || Three(Diagonal2(b), X)) && (Three(Diagonal1(b), O) || Three(Diagonal2(b), O)))
  {
  }

  /** The loop of `winner` from index i on: with no full row or column left it keeps the mark it
      started with; otherwise the last index holding a full row or column decides, an O line
      taking precedence over an X line at that index. */
  lemma {:induction false} LastLineDecides(b: Board, i: nat, won: Mark)
    requires i <= 3
    decreases 3 - i
    ensures (forall k :: i <= k < 3 ==> !RowOrColumn(b, k, O) && !RowOrColumn(b, k, X)) ==> WinnerFrom(b, i, won) == won
    ensures forall k :: i <= k < 3 && (RowOrColumn(b, k, O) || RowOrColumn(b, k, X))
              && (forall k' :: k < k' < 3 ==> !RowOrColumn(b, k', O) && !RowOrColumn(b, k', X))
              ==> WinnerFrom(b, i, won) == if RowOrColumn(b, k, O) then O else X
  {
    if i < 3 {
      var won' :=
        if RowOrColumn(b, i, O) then O
        else if RowOrColumn(b, i, X) then X
        else won;
      LastLineDecides(b, i + 1, won');
    }
  }

  /** The override order of `winner`: with no full diagonal, the last index i whose row or column
      is full decides the winner, whatever lines lower indices hold, and at that index an O line
      beats an X line. */
  lemma LaterRowOverrides(b: Board, i: nat)
    requires i < 3 && (RowOrColumn(b, i, O) || RowOrColumn(b, i, X))
    requires forall k :: i < k < 3 ==> !RowOrColumn(b, k, O) && !RowOrColumn(b, k, X)
    requires !Three(Diagonal1(b), O) && !Three(Diagonal2(b), O)
    requires !Three(Diagonal1(b), X) && !Three(Diagonal2(b), X)
    ensures Winner(b) == if RowOrColumn(b, i, O) then O else X
  {
    LastLineDecides(b, 0, Empty);
  }

  /** The diagonals are tested after the loop, so a full diagonal decides the winner whatever
      the rows and columns hold: X for an X diagonal, and O for an O diagonal, which never
      meets an X diagonal on the same board. */
  lemma DiagonalOverrides(b: Board)
    ensures Three(Diagonal1(b), X) || Three(Diagonal2(b), X) ==> Winner(b) == X
    ensures Three(Diagonal1(b), O) || Three(Diagonal2(b), O) ==> Winner(b) == O
  {
    DiagonalsNeverSplit(b);
  }
}
