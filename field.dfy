/** The Minesweeper field: cells, the neighbourhood of a cell, and the game object that knows
    where the mines are. */
module Field {
  import opened Wrappers

  /** A cell `(i, j)`: row i, column j. */
  type Cell = (int, int)

  /** The cells of a board with `height` rows and `width` columns. */
  function BoardCells(height: nat, width: nat): set<Cell>
  {
    set i, j | 0 <= i < height && 0 <= j < width :: (i, j)
  }

  /** The cells of the board are exactly the cells on it. */
  lemma BoardCellsMembers(height: nat, width: nat)
    ensures forall c :: c in BoardCells(height, width) <==> OnTheBoard(c, height, width)
  {
    forall c | OnTheBoard(c, height, width)
      ensures c in BoardCells(height, width)
    {
      var (i, j) := c;
      assert (i, j) in BoardCells(height, width);
    }
  }

  /** The cells within one row and one column of `cell`, not `cell` itself, that lie on the
      board. Both `nearby_mines` and `add_knowledge` loop over exactly these. */
  function Neighbours(cell: Cell, height: nat, width: nat): set<Cell>
  {
    set i, j | cell.0 - 1 <= i <= cell.0 + 1 && cell.1 - 1 <= j <= cell.1 + 1
               && (i, j) != cell && 0 <= i < height && 0 <= j < width :: (i, j)
  }

  /** A neighbour is on the board, is not the cell itself, and is a neighbour the other way
      round too. */
  lemma NeighbourhoodIsSymmetric(cell: Cell, other: Cell, height: nat, width: nat)
    requires other in Neighbours(cell, height, width)
    ensures other in BoardCells(height, width) && other != cell
    ensures OnTheBoard(cell, height, width) ==> cell in Neighbours(other, height, width)
  {
  }

  predicate OnTheBoard(cell: Cell, height: nat, width: nat)
  {
    0 <= cell.0 < height && 0 <= cell.1 < width
  }

  /** Python's reading of index `i` into a list of length `n`: a negative index counts from the end. */
  function Wrap(i: int, n: nat): int
  {
    if i < 0 then i + n else i
  }

  /** Membership of `Neighbours`, stated without the comprehension. */
  predicate IsNeighbour(cell: Cell, c: Cell, height: nat, width: nat)
  {
    cell.0 - 1 <= c.0 <= cell.0 + 1 && cell.1 - 1 <= c.1 <= cell.1 + 1 && c != cell
    && OnTheBoard(c, height, width)
  }

  lemma NeighboursMembers(cell: Cell, height: nat, width: nat)
    ensures forall c :: c in Neighbours(cell, height, width) <==> IsNeighbour(cell, c, height, width)
  {
    forall c | IsNeighbour(cell, c, height, width)
      ensures c in Neighbours(cell, height, width)
    {
      var (i, j) := c;
      assert (i, j) in Neighbours(cell, height, width);
    }
  }

  /** `c` comes before row i, column j in row-major order. */
  predicate Before(c: Cell, i: int, j: int)
  {
    c.0 < i || (c.0 == i && c.1 < j)
  }

  /** One step of the row-major walk over the window around `cell`. */
  lemma SeenOneMore(cell: Cell, height: nat, width: nat, seen: set<Cell>, i: int, j: int)
    requires cell.0 - 1 <= i <= cell.0 + 1 && cell.1 - 1 <= j <= cell.1 + 1
    requires forall c :: c in seen <==> IsNeighbour(cell, c, height, width) && Before(c, i, j)
    ensures (i, j) !in seen
    ensures (i, j) != cell && OnTheBoard((i, j), height, width) ==>
      forall c :: c in seen + {(i, j)} <==> IsNeighbour(cell, c, height, width) && Before(c, i, j + 1)
    ensures !((i, j) != cell && OnTheBoard((i, j), height, width)) ==>
      forall c :: c in seen <==> IsNeighbour(cell, c, height, width) && Before(c, i, j + 1)
  {
  }

  /** Adding a cell not yet seen adds one to the count of mines seen exactly when it is a mine. */
  lemma CountOneMore(seen: set<Cell>, mines: set<Cell>, c: Cell)
    requires c !in seen
    ensures |(seen + {c}) * mines| == |seen * mines| + (if c in mines then 1 else 0)
  {
    if c in mines {
      assert (seen + {c}) * mines == seen * mines + {c};
    } else {
      assert (seen + {c}) * mines == seen * mines;
    }
  }

  /** A subset as large as its superset is the whole of it. */
  lemma SubsetOfSameSize<T>(a: set<T>, b: set<T>)
    requires a <= b && |a| == |b|
    ensures a == b
  {
    assert |b - a| == |b| - |a|;
  }

  /** The game, as far as the inference engine is concerned: the board, the mine layout and the
      mines the player has flagged. */
  class Minesweeper {
    const height: nat
    const width: nat
    var mines: set<Cell>
    var board: seq<seq<bool>>
    var minesFound: set<Cell>

    /** `board[i][j]` is true exactly at the mines, and every mine is on the board. */
    ghost predicate Valid()
      reads this
    {
      |board| == height
      && (forall i :: 0 <= i < height ==> |board[i]| == width)
      && mines <= BoardCells(height, width)
      && (forall i, j :: 0 <= i < height && 0 <= j < width ==> (board[i][j] <==> (i, j) in mines))
    }

    /** `__init__` with the mine layout given instead of drawn at random: an all-False board,
        then each mine set to True one at a time. */
    constructor (height: nat, width: nat, layout: set<Cell>)
      requires layout <= BoardCells(height, width)
      ensures Valid()
      ensures this.height == height && this.width == width
      ensures mines == layout && minesFound == {}
    {
      var rows: seq<seq<bool>> := [];
      for i := 0 to height
        invariant |rows| == i
        invariant forall r :: 0 <= r < i ==> |rows[r]| == width && forall c :: 0 <= c < width ==> !rows[r][c]
      {
        var row: seq<bool> := [];
        for j := 0 to width
          invariant |row| == j && forall c :: 0 <= c < j ==> !row[c]
        {
          row := row + [false];
        }
        rows := rows + [row];
      }
      var placed: set<Cell> := {};
      var todo := layout;
      while todo != {}
        invariant todo <= layout && placed == layout - todo
        invariant |rows| == height && forall r :: 0 <= r < height ==> |rows[r]| == width
        invariant forall i, j :: 0 <= i < height && 0 <= j < width ==> (rows[i][j] <==> (i, j) in placed)
        decreases todo
      {
        var c :| c in todo;
        assert c in BoardCells(height, width);
        rows := rows[c.0 := rows[c.0][c.1 := true]];
        placed := placed + {c};
        todo := todo - {c};
      }
      this.height := height;
      this.width := width;
      mines := placed;
      board := rows;
      minesFound := {};
    }

    /** `is_mine`: `self.board[i][j]`, with Python's indexing. A negative index counts from the
        end of its row or column, and an index beyond either end raises IndexError (None here). */
    function IsMine(cell: Cell): (r: Option<bool>)
      requires Valid()
      reads this
      ensures r.Some? <==> -(height as int) <= cell.0 < height && -(width as int) <= cell.1 < width
      ensures OnTheBoard(cell, height, width) ==> r == Some(cell in mines)
      ensures r.Some? ==> r.value == ((Wrap(cell.0, height), Wrap(cell.1, width)) in mines)
    {
      if -(height as int) <= cell.0 < height && -(width as int) <= cell.1 < width then
        Some(board[Wrap(cell.0, height)][Wrap(cell.1, width)])
      else
        None
    }

    /** `nearby_mines`: the loop over the 3x3 window around `cell` counts the mines among the
        cell's neighbours. */
    method NearbyMines(cell: Cell) returns (count: nat)
      requires Valid()
      ensures count == |Neighbours(cell, height, width) * mines|
    {
      count := 0;
      ghost var seen: set<Cell> := {};
      for i := cell.0 - 1 to cell.0 + 2
        invariant forall c :: c in seen <==> IsNeighbour(cell, c, height, width) && c.0 < i
        invariant count == |seen * mines|
      {
        for j := cell.1 - 1 to cell.1 + 2
          invariant forall c :: c in seen <==> IsNeighbour(cell, c, height, width) && Before(c, i, j)
          invariant count == |seen * mines|
        {
          SeenOneMore(cell, height, width, seen, i, j);
          if (i, j) != cell && 0 <= i < height && 0 <= j < width {
            CountOneMore(seen, mines, (i, j));
            if board[i][j] {
              count := count + 1;
            }
            seen := seen + {(i, j)};
          }
        }
      }
      NeighboursMembers(cell, height, width);
      assert seen == Neighbours(cell, height, width);
    }

    /** `won`: the set of flags is the set of mines. */
    function Won(): bool
      reads this
    {
      minesFound == mines
    }

    /** What `won` means: every mine has been flagged and no flag is on a safe cell; while the
        flags are on mines only, that is as many flags as there are mines. */
    lemma WonMeansAllFlagged()
      ensures Won() <==> mines <= minesFound && minesFound <= mines
      ensures minesFound <= mines ==> (Won() <==> |minesFound| == |mines|)
    {
      if minesFound <= mines && |minesFound| == |mines| {
        SubsetOfSameSize(minesFound, mines);
      }
    }
  }
}
