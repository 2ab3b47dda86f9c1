/** The board of engine/Minesweeper.java. The matrix of cells and the two
    boolean matrices (`uncovered` and the flags, `highlightedMines`) are
    arrays updated in place; `uncoverCount` tells whether the first move has
    happened, which is when the mines are laid.

    The source indexes its arrays in two ways: the constructor, the mine
    placement, the numbering, `isMine`, `isUncovered`, `getCell`,
    `isCellHighlighted` and the flag setters use `[x][y]`, while `uncover` and
    `uncoverAdjacent` use `[y][x]`. The model keeps both, literally. A
    position `(i, j)` below always means `array[i, j]`. */
module Engine {
  import opened JavaLang
  import opened CellType
  import opened Skins
  import opened Grids
  import opened Layout
  import opened Flood
  import Cells

  /** The cell the numbering leaves at `p` when `mines` are the mine positions:
      a mine, a NUMBER cell holding the count of neighbouring mines, or an
      EMPTY cell when there are none. */
  ghost function Expected(mines: set<Pos>, p: Pos): CellState
  {
    if p in mines then Fresh(MINE)
    else if NeighbourCount(mines, p.0, p.1) == 0 then Fresh(EMPTY)
    else Fresh(NUMBER).(number := NeighbourCount(mines, p.0, p.1))
  }

  /** The numbering keeps mines exactly where they are, and a NUMBER cell
      always holds a count from 1 to 8; an EMPTY cell has no mine around it. */
  lemma ExpectedKinds(mines: set<Pos>, p: Pos)
    ensures Expected(mines, p).kind == MINE <==> p in mines
    ensures Expected(mines, p).kind == NUMBER ==>
              1 <= Expected(mines, p).number <= 8 && Expected(mines, p).number == NeighbourCount(mines, p.0, p.1)
    ensures Expected(mines, p).kind == EMPTY <==> p !in mines && NeighbourCount(mines, p.0, p.1) == 0
    ensures Expected(mines, p).kind in {MINE, NUMBER, EMPTY}
    ensures !Expected(mines, p).uncovered && !Expected(mines, p).flagged
  {
    NeighbourCountAtMost8(mines, p.0, p.1);
  }

  class Minesweeper {
    const matrix: array2<CellState>
    const uncovered: array2<bool>
    const highlightedMines: array2<bool>
    var uncoverCount: int
    const mines: int

    /** Every position of the matrix. */
    ghost function Board(): set<Pos>
    {
      Grid(matrix.Length0, matrix.Length1)
    }

    ghost function Kinds(): map<Pos, CellType>
      reads matrix
    {
      map p | p in Board() :: matrix[p.0, p.1].kind
    }

    ghost function MineSet(): set<Pos>
      reads matrix
    {
      set p | p in Board() && matrix[p.0, p.1].kind == MINE
    }

    ghost function SafeSet(): set<Pos>
      reads matrix
    {
      Board() - MineSet()
    }

    ghost function UncoveredSet(): set<Pos>
      reads uncovered
    {
      set p | p in Grid(uncovered.Length0, uncovered.Length1) && uncovered[p.0, p.1]
    }

    ghost function Covered(): set<Pos>
      reads uncovered
    {
      Board() - UncoveredSet()
    }

    /** The flags, at the positions of `highlightedMines`. */
    ghost function Flags(): set<Pos>
      reads highlightedMines
    {
      set p | p in Grid(highlightedMines.Length0, highlightedMines.Length1) && highlightedMines[p.0, p.1]
    }

    /** The flags as `uncover` sees them: `uncover(x, y)` works on the cell
        `[y][x]` but tests the flag `[x][y]`. */
    ghost function FlaggedCells(): set<Pos>
      reads highlightedMines
    {
      set p | p in Grid(highlightedMines.Length1, highlightedMines.Length0) && highlightedMines[p.1, p.0]
    }

    /** Before the first move: no cell uncovered, and only plain EMPTY and MINE cells. */
    ghost predicate Unstarted()
      reads matrix, uncovered
    {
      (forall i, j | 0 <= i < uncovered.Length0 && 0 <= j < uncovered.Length1 :: !uncovered[i, j]) &&
      (forall i, j | 0 <= i < matrix.Length0 && 0 <= j < matrix.Length1 ::
         matrix[i, j] == Fresh(EMPTY) || matrix[i, j] == Fresh(MINE))
    }

    /** After the first move: every cell is what the numbering makes of the mines. */
    ghost predicate Numbered()
      reads matrix
    {
      forall i, j | 0 <= i < matrix.Length0 && 0 <= j < matrix.Length1 ::
        matrix[i, j] == Expected(MineSet(), (i, j))
    }

    /** The shape of the board, and where flags may sit: only on a cell that
        `uncover` would open and that is still covered. */
    ghost predicate Shape()
      reads this, matrix, uncovered, highlightedMines
    {
      uncovered != highlightedMines &&
      matrix.Length0 >= 1 && matrix.Length1 >= 1 &&
      uncovered.Length0 == matrix.Length0 && uncovered.Length1 == matrix.Length1 &&
      highlightedMines.Length0 == matrix.Length0 && highlightedMines.Length1 == matrix.Length1 &&
      (forall i, j | 0 <= i < matrix.Length0 && 0 <= j < matrix.Length1 && highlightedMines[i, j] ::
         j < matrix.Length0 && i < matrix.Length1 && !uncovered[j, i])
    }

    ghost predicate Valid()
      reads this, matrix, uncovered, highlightedMines
    {
      Shape() &&
      uncoverCount >= 0 &&
      (uncoverCount == 0 ==> Unstarted()) &&
      (uncoverCount > 0 ==> Numbered())
    }

    /** `new Minesweeper(width, height, mines)`: all cells EMPTY, nothing
        uncovered or flagged, no mines until the first move. */
    constructor (width: int, height: int, mines: int)
      requires width >= 1 && height >= 1
      ensures Valid()
      ensures matrix.Length0 == width && matrix.Length1 == height && this.mines == mines
      ensures uncoverCount == 0
      ensures MineSet() == {} && UncoveredSet() == {} && Flags() == {}
      ensures SafeSet() == Board()
    {
      var m := new CellState[width, height];
      var u := new bool[width, height];
      var x := 0;
      while x < width
        invariant 0 <= x <= width
        invariant forall i, j | 0 <= i < x && 0 <= j < height :: m[i, j] == Fresh(EMPTY) && !u[i, j]
      {
        var y := 0;
        while y < height
          invariant 0 <= y <= height
          invariant forall i, j | 0 <= i < x && 0 <= j < height :: m[i, j] == Fresh(EMPTY) && !u[i, j]
          invariant forall j | 0 <= j < y :: m[x, j] == Fresh(EMPTY) && !u[x, j]
        {
          m[x, y] := Fresh(EMPTY);
          u[x, y] := false;
          y := y + 1;
        }
        x := x + 1;
      }
      matrix := m;
      uncovered := u;
      highlightedMines := new bool[width, height]((i, j) => false);
      uncoverCount := 0;
      this.mines := mines;
      new;
      assert MineSet() == {};
      assert UncoveredSet() == {};
      assert Flags() == {};
    }

    /** `getFieldWidth()`. */
    function FieldWidth(): (r: int)
      requires Valid()
      reads this, matrix, uncovered, highlightedMines
      ensures r >= 1 && r == matrix.Length0
    {
      matrix.Length0
    }

    /** `getFieldHeight()`: the length of the first column, `matrix[0].length`. */
    function FieldHeight(): (r: int)
      requires Valid()
      reads this, matrix, uncovered, highlightedMines
      ensures r >= 1 && r == matrix.Length1
    {
      matrix.Length1
    }

    /** `isMine(x, y)`: false off the board. */
    function IsMine(x: int, y: int): (r: bool)
      reads matrix
      ensures r <==> (x, y) in MineSet()
    {
      0 <= x < matrix.Length0 && 0 <= y < matrix.Length1 && matrix[x, y].kind == MINE
    }

    /** `isCellHighlighted(x, y)`: false off the board. */
    function IsCellHighlighted(x: int, y: int): (r: bool)
      reads highlightedMines
      ensures r <==> (x, y) in Flags()
      ensures r <==> (y, x) in FlaggedCells()
    {
      0 <= x < highlightedMines.Length0 && 0 <= y < highlightedMines.Length1 && highlightedMines[x, y]
    }

    /** `isUncovered(x, y)`: true off the board, so that nothing tries to open it. */
    function IsUncovered(x: int, y: int): (r: bool)
      reads uncovered
      ensures r <==> (x, y) in UncoveredSet() || (x, y) !in Grid(uncovered.Length0, uncovered.Length1)
    {
      !(0 <= x < uncovered.Length0 && 0 <= y < uncovered.Length1) || uncovered[x, y]
    }

    /** `getCell(x, y)`: the cell itself once uncovered, a HIDDEN cell while
        covered, a NOT_SET cell off the board. */
    function GetCell(x: int, y: int): (c: CellState)
      requires Valid()
      reads this, matrix, uncovered, highlightedMines
      ensures (x, y) !in Board() ==> c == Fresh(NOT_SET)
      ensures (x, y) in Board() && (x, y) !in UncoveredSet() ==> c == Fresh(HIDDEN)
      ensures (x, y) in UncoveredSet() ==> (x, y) in Board() && c == matrix[x, y]
    {
      if 0 <= x < uncovered.Length0 && 0 <= y < uncovered.Length1 then
        if uncovered[x, y] then matrix[x, y] else Fresh(HIDDEN)
      else Fresh(NOT_SET)
    }

    /** `getNumbersOfMines(x, y)`: scans the 3x3 block around the cell and
        counts the mines other than the cell itself. */
    method GetNumbersOfMines(x: int, y: int) returns (num: int)
      ensures num == NeighbourCount(MineSet(), x, y)
      ensures 0 <= num <= 8
    {
      num := 0;
      ghost var s := MineSet();
      var i := x - 1;
      while i <= x + 1
        invariant x - 1 <= i <= x + 2
        invariant num == BlockCount(s, x, y, 3 * (i - x + 1))
      {
        var j := y - 1;
        while j <= y + 1
          invariant y - 1 <= j <= y + 2
          invariant num == BlockCount(s, x, y, 3 * (i - x + 1) + (j - y + 1))
        {
          assert BlockPos(x, y, 3 * (i - x + 1) + (j - y + 1)) == (i, j);
          if (i != x || j != y) && IsMine(i, j) {
            num := num + 1;
          }
          j := j + 1;
        }
        i := i + 1;
      }
      BlockCountAll(s, x, y);
      NeighbourCountAtMost8(s, x, y);
    }

    /** `getNumbersOfFlaggedCells(x, y)`: the same scan, testing the flag
        `[j][i]` for the neighbour `(i, j)`, i.e. counting the flags as
        `uncover` sees them. */
    method GetNumbersOfFlaggedCells(x: int, y: int) returns (num: int)
      ensures num == NeighbourCount(FlaggedCells(), x, y)
      ensures 0 <= num <= 8
    {
      num := 0;
      ghost var s := FlaggedCells();
      var i := x - 1;
      while i <= x + 1
        invariant x - 1 <= i <= x + 2
        invariant num == BlockCount(s, x, y, 3 * (i - x + 1))
      {
        var j := y - 1;
        while j <= y + 1
          invariant y - 1 <= j <= y + 2
          invariant num == BlockCount(s, x, y, 3 * (i - x + 1) + (j - y + 1))
        {
          assert BlockPos(x, y, 3 * (i - x + 1) + (j - y + 1)) == (i, j);
          if (i != x || j != y) && IsCellHighlighted(j, i) {
            num := num + 1;
          }
          j := j + 1;
        }
        i := i + 1;
      }
      BlockCountAll(s, x, y);
      NeighbourCountAtMost8(s, x, y);
    }

    /** One pass of the `do ... while` in `placeMines()`: a cell that is not a
        mine yet becomes a mine. The random draw is repeated until it hits
        such a cell; the model picks any of them. */
    method PlaceMine() returns (randomX: int, randomY: int)
      requires Unstarted() && SafeSet() != {}
      modifies matrix
      ensures Unstarted()
      ensures (randomX, randomY) in old(SafeSet())
      ensures MineSet() == old(MineSet()) + {(randomX, randomY)}
    {
      ghost var before := MineSet();
      ghost var p :| p in SafeSet();
      assert 0 <= p.0 < matrix.Length0 && 0 <= p.1 < matrix.Length1 && matrix[p.0, p.1].kind != MINE;
      randomX, randomY :|
        0 <= randomX < matrix.Length0 && 0 <= randomY < matrix.Length1 && matrix[randomX, randomY].kind != MINE;
      ghost var r := (randomX, randomY);
      assert r in Board() && r !in before;
      matrix[randomX, randomY] := Fresh(MINE);
      assert Unstarted();
      assert MineSet() == before + {r} by {
        forall q | q in MineSet() && q != r ensures q in before {
          assert matrix[q.0, q.1] == old(matrix[q.0, q.1]);
        }
        forall q | q in before ensures q in MineSet() {
          assert matrix[q.0, q.1] == old(matrix[q.0, q.1]);
        }
      }
    }

    /** `placeMines()`: lays `mines` mines on cells that are not mines yet, so
        the board gains exactly `mines` of them (none when `mines <= 0`). It
        needs one free cell per mine: with fewer the loop never ends. */
    method PlaceMines()
      requires Unstarted()
      requires mines <= |SafeSet()|
      modifies matrix
      ensures Unstarted()
      ensures old(MineSet()) <= MineSet()
      ensures |MineSet()| == |old(MineSet())| + (if mines > 0 then mines else 0)
    {
      var i := 0;
      while i < mines
        invariant (mines <= 0 && i == 0) || 0 <= i <= mines
        invariant Unstarted()
        invariant old(MineSet()) <= MineSet()
        invariant |MineSet()| == |old(MineSet())| + i
        invariant |SafeSet()| == |old(SafeSet())| - i
      {
        ghost var before := MineSet();
        var x, y := PlaceMine();
        AddOne(Board(), before, (x, y));
        i := i + 1;
      }
    }

    /** The body of the `if` in `placeNumbers()`: a new NUMBER cell takes the
        place of the cell `[x][y]`, which is not a mine, and is given its count. */
    method PutNumber(x: int, y: int, adjacentMines: int)
      requires 0 <= x < matrix.Length0 && 0 <= y < matrix.Length1 && matrix[x, y].kind != MINE
      modifies matrix
      ensures matrix[x, y] == Fresh(NUMBER).(number := adjacentMines)
      ensures forall i, j | 0 <= i < matrix.Length0 && 0 <= j < matrix.Length1 && (i, j) != (x, y) ::
                matrix[i, j] == old(matrix[i, j])
      ensures MineSet() == old(MineSet())
    {
      ghost var before := MineSet();
      var cell := new Cells.Cell(NUMBER);
      var _ := cell.SetAdjacentMines(adjacentMines);
      matrix[x, y] := cell.State();
      assert MineSet() == before by {
        forall q | q in MineSet() ensures q in before {
          assert matrix[q.0, q.1] == old(matrix[q.0, q.1]);
        }
        forall q | q in before ensures q in MineSet() {
          assert matrix[q.0, q.1] == old(matrix[q.0, q.1]);
        }
      }
    }

    /** One pass of the outer loop of `placeNumbers()`: the cells `[x][y]`
        for every `y`. */
    method PlaceNumbersRow(x: int)
      requires 0 <= x < matrix.Length0
      requires forall j | 0 <= j < matrix.Length1 :: matrix[x, j] == Fresh(EMPTY) || matrix[x, j] == Fresh(MINE)
      modifies matrix
      ensures MineSet() == old(MineSet())
      ensures forall j | 0 <= j < matrix.Length1 :: matrix[x, j] == Expected(MineSet(), (x, j))
      ensures forall i, j | 0 <= i < matrix.Length0 && 0 <= j < matrix.Length1 && i != x ::
                matrix[i, j] == old(matrix[i, j])
    {
      ghost var m := MineSet();
      var y := 0;
      while y < matrix.Length1
        invariant 0 <= y <= matrix.Length1
        invariant MineSet() == m
        invariant forall j | 0 <= j < y :: matrix[x, j] == Expected(m, (x, j))
        invariant forall j | y <= j < matrix.Length1 :: matrix[x, j] == Fresh(EMPTY) || matrix[x, j] == Fresh(MINE)
        invariant forall i, j | 0 <= i < matrix.Length0 && 0 <= j < matrix.Length1 && i != x ::
                    matrix[i, j] == old(matrix[i, j])
      {
        NumberCell(x, y);
        y := y + 1;
      }
    }

    /** The body of the inner loop of `placeNumbers()` for the cell `[x][y]`,
        a plain EMPTY or MINE cell: it ends up as the numbering makes it. */
    method NumberCell(x: int, y: int)
      requires 0 <= x < matrix.Length0 && 0 <= y < matrix.Length1
      requires matrix[x, y] == Fresh(EMPTY) || matrix[x, y] == Fresh(MINE)
      modifies matrix
      ensures MineSet() == old(MineSet())
      ensures matrix[x, y] == Expected(MineSet(), (x, y))
      ensures forall j | 0 <= j < matrix.Length1 && j != y :: matrix[x, j] == old(matrix[x, j])
      ensures forall i, j | 0 <= i < matrix.Length0 && 0 <= j < matrix.Length1 && i != x ::
                matrix[i, j] == old(matrix[i, j])
    {
      var adjacentMines := GetNumbersOfMines(x, y);
      if adjacentMines != 0 && !IsMine(x, y) {
        PutNumber(x, y, adjacentMines);
      }
    }

    /** `placeNumbers()`: every cell that is not a mine and has mines around it
        becomes a NUMBER cell holding their count; the others stay as they
        are, which on a board that has not started leaves EMPTY cells EMPTY. */
    method PlaceNumbers()
      requires Unstarted()
      modifies matrix
      ensures MineSet() == old(MineSet())
      ensures Numbered()
    {
      ghost var m := MineSet();
      var x := 0;
      while x < matrix.Length0
        invariant 0 <= x <= matrix.Length0
        invariant MineSet() == m
        invariant forall i, j | 0 <= i < x && 0 <= j < matrix.Length1 :: matrix[i, j] == Expected(m, (i, j))
        invariant forall i, j | x <= i < matrix.Length0 && 0 <= j < matrix.Length1 ::
                    matrix[i, j] == Fresh(EMPTY) || matrix[i, j] == Fresh(MINE)
      {
        PlaceNumbersRow(x);
        x := x + 1;
      }
    }

    /** The loop at the end of `uncover`: the game is over when every cell that
        is not a mine is uncovered. */
    method AllSafeUncovered() returns (gameEnded: bool)
      requires Shape()
      ensures gameEnded <==> SafeSet() <= UncoveredSet()
    {
      gameEnded := true;
      var x := 0;
      while x < matrix.Length0
        invariant 0 <= x <= matrix.Length0
        invariant gameEnded
        invariant forall i, j | 0 <= i < x && 0 <= j < matrix.Length1 :: uncovered[i, j] || matrix[i, j].kind == MINE
      {
        var y := 0;
        while y < matrix.Length1
          invariant 0 <= y <= matrix.Length1
          invariant gameEnded
          invariant forall j | 0 <= j < y :: uncovered[x, j] || matrix[x, j].kind == MINE
        {
          if !IsUncovered(x, y) && matrix[x, y].kind != MINE {
            gameEnded := false;
            break;
          }
          y := y + 1;
        }
        if !gameEnded {
          assert (x, y) in SafeSet() && (x, y) !in UncoveredSet();
          break;
        }
        x := x + 1;
      }
      if gameEnded {
        forall p | p in SafeSet() ensures p in UncoveredSet() {
          assert uncovered[p.0, p.1];
        }
      }
    }

    /** `highlightCell(x, y)`: sets the flag `[x][y]`; ignored off the board. */
    method HighlightCell(x: int, y: int)
      modifies highlightedMines
      ensures Flags() == old(Flags()) + ({(x, y)} * Grid(highlightedMines.Length0, highlightedMines.Length1))
      ensures 0 <= x < highlightedMines.Length0 && 0 <= y < highlightedMines.Length1 ==> highlightedMines[x, y]
      ensures forall i, j | 0 <= i < highlightedMines.Length0 && 0 <= j < highlightedMines.Length1 && (i, j) != (x, y) ::
                highlightedMines[i, j] == old(highlightedMines[i, j])
    {
      if 0 <= x < highlightedMines.Length0 && 0 <= y < highlightedMines.Length1 {
        highlightedMines[x, y] := true;
        FlagsAfterWrite(old(Flags()), x, y);
      }
    }

    /** `unhighlightCell(x, y)`: clears the flag `[x][y]`; ignored off the board. */
    method UnhighlightCell(x: int, y: int)
      modifies highlightedMines
      ensures Flags() == old(Flags()) - {(x, y)}
      ensures 0 <= x < highlightedMines.Length0 && 0 <= y < highlightedMines.Length1 ==> !highlightedMines[x, y]
      ensures forall i, j | 0 <= i < highlightedMines.Length0 && 0 <= j < highlightedMines.Length1 && (i, j) != (x, y) ::
                highlightedMines[i, j] == old(highlightedMines[i, j])
    {
      if 0 <= x < highlightedMines.Length0 && 0 <= y < highlightedMines.Length1 {
        highlightedMines[x, y] := false;
        FlagsAfterWrite(old(Flags()), x, y);
      }
    }

    /** The flags after the single write `highlightedMines[x, y] := b`: those
        of `before` elsewhere, and `(x, y)` exactly when `b` is set. */
    lemma FlagsAfterWrite(before: set<Pos>, x: int, y: int)
      requires 0 <= x < highlightedMines.Length0 && 0 <= y < highlightedMines.Length1
      requires forall p | p in Grid(highlightedMines.Length0, highlightedMines.Length1) && p != (x, y) ::
                 p in before <==> highlightedMines[p.0, p.1]
      requires forall p | p in before :: p in Grid(highlightedMines.Length0, highlightedMines.Length1)
      ensures highlightedMines[x, y] ==> Flags() == before + {(x, y)}
      ensures !highlightedMines[x, y] ==> Flags() == before - {(x, y)}
    {
    }

    /** `toggleHighlightCell(x, y)`: a cell whose `isUncovered(y, x)` holds
        loses its flag; any other cell has its flag flipped. Since the test
        reads `uncovered[y][x]`, the flag that `uncover` checks, a flag never
        sits on an uncovered cell. */
    method ToggleHighlightCell(x: int, y: int)
      requires Shape()
      modifies highlightedMines
      ensures Shape()
      ensures IsCellHighlighted(x, y) <==>
                (x, y) in Board() && !IsUncovered(y, x) && !old(IsCellHighlighted(x, y))
      ensures Flags() - {(x, y)} == old(Flags()) - {(x, y)}
    {
      if IsUncovered(y, x) {
        UnhighlightCell(x, y);
        return;
      }
      if IsCellHighlighted(x, y) {
        UnhighlightCell(x, y);
      } else {
        HighlightCell(x, y);
      }
    }

    /** `getRemainingMines()`: the mines on the board minus the flags; it is
        negative when there are more flags than mines. */
    method GetRemainingMines() returns (remaining: int)
      ensures remaining == |MineSet()| - |Flags()|
    {
      var mineCount := CountMines();
      remaining := mineCount;
      ghost var flags := Flags();
      var x := 0;
      while x < highlightedMines.Length0
        invariant 0 <= x <= highlightedMines.Length0
        invariant remaining == mineCount - GridCount(flags, highlightedMines.Length1, x)
      {
        var y := 0;
        while y < highlightedMines.Length1
          invariant 0 <= y <= highlightedMines.Length1
          invariant remaining == mineCount - GridCount(flags, highlightedMines.Length1, x) - RowCount(flags, x, y)
        {
          if highlightedMines[x, y] {
            remaining := remaining - 1;
          }
          y := y + 1;
        }
        x := x + 1;
      }
      GridCountSize(flags, highlightedMines.Length0, highlightedMines.Length1);
      assert flags * Grid(highlightedMines.Length0, highlightedMines.Length1) == flags;
    }

    /** The first loop of `getRemainingMines()`: it counts the MINE cells. */
    method CountMines() returns (count: int)
      ensures count == |MineSet()|
    {
      ghost var s := MineSet();
      count := 0;
      var x := 0;
      while x < matrix.Length0
        invariant 0 <= x <= matrix.Length0
        invariant count == GridCount(s, matrix.Length1, x)
      {
        var y := 0;
        while y < matrix.Length1
          invariant 0 <= y <= matrix.Length1
          invariant count == GridCount(s, matrix.Length1, x) + RowCount(s, x, y)
        {
          if matrix[x, y].kind == MINE {
            count := count + 1;
          }
          y := y + 1;
        }
        x := x + 1;
      }
      GridCountSize(s, matrix.Length0, matrix.Length1);
      assert s * Board() == s;
    }

    /** What `getFieldAsString` draws for the cell `[x][y]`: its own character
        once uncovered, the HIDDEN character of the skin before. */
    function Glyph(skin: Skin, x: int, y: int): JChar
      requires 0 <= x < matrix.Length0 && 0 <= y < matrix.Length1
      reads matrix, uncovered
    {
      if IsUncovered(x, y) then Render(skin, matrix[x, y]) else Cells.GetCharFor(skin, HIDDEN)
    }

    /** The glyphs of the cells `[x][0]` to `[x][n - 1]`. */
    ghost function GlyphRow(skin: Skin, x: int, n: int): (row: seq<JChar>)
      requires 0 <= x < matrix.Length0 && 0 <= n <= matrix.Length1
      reads matrix, uncovered
      ensures |row| == n
      decreases n
    {
      if n == 0 then [] else GlyphRow(skin, x, n - 1) + [Glyph(skin, x, n - 1)]
    }

    /** Entry `y` of a glyph row is the glyph of the cell `[x][y]`. */
    lemma {:induction false} GlyphRowAt(skin: Skin, x: int, n: int, y: int)
      requires 0 <= x < matrix.Length0 && 0 <= y < n <= matrix.Length1
      ensures GlyphRow(skin, x, n)[y] == Glyph(skin, x, y)
      decreases n
    {
      if y < n - 1 {
        GlyphRowAt(skin, x, n - 1, y);
      }
    }

    /** The whole rows `[0]` to `[n - 1]` of glyphs. */
    ghost function GlyphRows(skin: Skin, n: int): (rows: seq<seq<JChar>>)
      requires 0 <= n <= matrix.Length0
      reads matrix, uncovered
      ensures |rows| == n
      decreases n
    {
      if n == 0 then [] else GlyphRows(skin, n - 1) + [GlyphRow(skin, n - 1, matrix.Length1)]
    }

    /** Entry `x` of the glyph rows is the whole row `[x]`. */
    lemma {:induction false} GlyphRowsAt(skin: Skin, n: int, x: int)
      requires 0 <= x < n <= matrix.Length0
      ensures GlyphRows(skin, n)[x] == GlyphRow(skin, x, matrix.Length1)
      decreases n
    {
      if x < n - 1 {
        GlyphRowsAt(skin, n - 1, x);
      }
    }

    /** `getFieldAsString()`: one line per first index, see `Layout.Text`. */
    method GetFieldAsString(skin: Skin) returns (res: JString)
      ensures res == Text(GlyphRows(skin, matrix.Length0))
      ensures matrix.Length1 >= 1 ==> |res| == matrix.Length0 * (2 * matrix.Length1)
    {
      ghost var rows := GlyphRows(skin, matrix.Length0);
      res := [];
      var x := 0;
      while x < matrix.Length0
        invariant 0 <= x <= matrix.Length0
        invariant res == Text(rows[..x])
        invariant rows == GlyphRows(skin, matrix.Length0)
      {
        var line := FieldLine(skin, x, rows);
        TextStep(rows, x);
        res := res + line;
        x := x + 1;
      }
      TextStep(rows, x);
      if matrix.Length1 >= 1 {
        FieldTextLength(skin);
      }
    }

    /** The field text has two units per cell: a glyph and a separator. */
    lemma FieldTextLength(skin: Skin)
      requires matrix.Length1 >= 1
      ensures |Text(GlyphRows(skin, matrix.Length0))| == matrix.Length0 * (2 * matrix.Length1)
    {
      var rows := GlyphRows(skin, matrix.Length0);
      forall i | 0 <= i < |rows|
        ensures |rows[i]| == matrix.Length1
      {
        GlyphRowsAt(skin, matrix.Length0, i);
      }
      TextLength(rows, matrix.Length1);
    }

    /** One pass of the outer loop of `getFieldAsString()`: the glyphs of the
        cells `[x][y]`, separated by spaces, and a newline. */
    method FieldLine(skin: Skin, x: int, ghost rows: seq<seq<JChar>>) returns (line: JString)
      requires 0 <= x < matrix.Length0 && rows == GlyphRows(skin, matrix.Length0)
      ensures line == Line(rows[x])
    {
      GlyphRowsAt(skin, matrix.Length0, x);
      ghost var row := rows[x];
      line := [];
      var y := 0;
      while y < matrix.Length1
        invariant 0 <= y <= matrix.Length1
        invariant line == LinePrefix(row, y)
      {
        GlyphRowAt(skin, x, matrix.Length1, y);
        line := line + [Glyph(skin, x, y)];
        if matrix.Length1 - 1 != y {
          line := line + [Chr(' ')];
        }
        y := y + 1;
      }
      line := line + [Chr('\n')];
    }

    /** `matrix[y][x] = new Cell(CellType.EMPTY)` in `uncover`: the cell of the
        first move stops being a mine, if it was one. */
    method MakeSafe(i: int, j: int)
      requires 0 <= i < matrix.Length0 && 0 <= j < matrix.Length1 && Unstarted()
      modifies matrix
      ensures Unstarted()
      ensures matrix[i, j] == Fresh(EMPTY)
      ensures MineSet() == old(MineSet()) - {(i, j)}
    {
      matrix[i, j] := Fresh(EMPTY);
      assert Unstarted();
      assert MineSet() == old(MineSet()) - {(i, j)} by {
        forall q | q in MineSet() ensures q in old(MineSet()) {
          assert matrix[q.0, q.1] == old(matrix[q.0, q.1]);
        }
        forall q | q in old(MineSet()) && q != (i, j) ensures q in MineSet() {
          assert matrix[q.0, q.1] == old(matrix[q.0, q.1]);
        }
      }
    }

    /** On a new board every cell is free, so the mines of the first move
        can be laid exactly when there are at most as many as cells. */
    lemma NewBoardRoom()
      requires MineSet() == {}
      ensures |SafeSet()| == matrix.Length0 * matrix.Length1
    {
      GridSize(matrix.Length0, matrix.Length1);
    }

    /** A flag never sits on an uncovered cell: `uncover` never opens a
        flagged cell, and `toggleHighlightCell` never flags an open one. */
    lemma FlagsCovered()
      requires Shape()
      ensures FlaggedCells() * UncoveredSet() == {}
    {
      forall p | p in FlaggedCells() ensures p !in UncoveredSet() {
        assert highlightedMines[p.1, p.0];
      }
    }

    /** The block of `uncover` run on the first move: lay the mines, make the
        chosen cell `[y][x]` safe and number the board. An index out of range
        stops it after the mines are laid (the exception is caught by
        `uncover`), leaving the board unstarted. */
    method FirstMove(x: int, y: int) returns (inRange: bool)
      requires Unstarted() && mines <= |SafeSet()|
      modifies matrix
      ensures inRange <==> (y, x) in Board()
      ensures !inRange ==> Unstarted() && old(MineSet()) <= MineSet() &&
                           |MineSet()| == |old(MineSet())| + (if mines > 0 then mines else 0)
      ensures inRange ==> Numbered() && matrix[y, x].kind != MINE
      ensures inRange ==> |old(MineSet())| + (if mines > 0 then mines else 0) - 1 <= |MineSet()|
                            <= |old(MineSet())| + (if mines > 0 then mines else 0)
    {
      PlaceMines();
      inRange := 0 <= y < matrix.Length0 && 0 <= x < matrix.Length1;
      if inRange {
        SafeStart(y, x);
      }
    }

    /** `matrix[y][x] = new Cell(CellType.EMPTY); placeNumbers();` in
        `uncover`, for the cell `[i][j]` of the first move. */
    method SafeStart(i: int, j: int)
      requires 0 <= i < matrix.Length0 && 0 <= j < matrix.Length1 && Unstarted()
      modifies matrix
      ensures Numbered() && matrix[i, j].kind != MINE
      ensures |MineSet()| == |old(MineSet())| - (if (i, j) in old(MineSet()) then 1 else 0)
    {
      ghost var placed := MineSet();
      MakeSafe(i, j);
      RemoveCount(placed, (i, j));
      PlaceNumbers();
      assert (i, j) !in MineSet();
    }

    /** `uncover(x, y)`: opens the cell `[y][x]`, and the cells around an EMPTY
        one, and reports the character of the cell, the number of cells it
        opened and whether every cell that is not a mine is now open.
        A flagged cell (the flag `[x][y]`) is left alone. The first move lays
        the mines first, never under the chosen cell; `uncoverCount` counts
        the calls that get past the flag test, the nested ones included. */
    method Uncover(skin: Skin, x: int, y: int) returns (ch: Option<JChar>, score: int, gameEnded: bool)
      requires Valid()
      requires uncoverCount == 0 ==> mines <= |SafeSet()|
      modifies this`uncoverCount, matrix, uncovered
      ensures Valid()
      ensures old(uncoverCount) > 0 ==> unchanged(matrix)
      ensures IsCellHighlighted(x, y) ==>
                ch == None && score == 0 && !gameEnded && uncoverCount == old(uncoverCount) &&
                unchanged(matrix) && unchanged(uncovered)
      ensures score == |UncoveredSet() - old(UncoveredSet())|
      ensures Opened(Kinds(), FlaggedCells(), old(UncoveredSet()), UncoveredSet(), {(y, x)})
      ensures (y, x) in old(UncoveredSet()) ==> score == 0
      ensures !IsCellHighlighted(x, y) && (y, x) !in Board() ==>
                ch == Some(Cells.GetCharFor(skin, NOT_SET)) && score == 0 && gameEnded &&
                uncoverCount == (if old(uncoverCount) == 0 then 0 else old(uncoverCount) + 1)
      ensures !IsCellHighlighted(x, y) && (y, x) in Board() ==>
                (y, x) in UncoveredSet() && ch == Some(Cells.GetCharFor(skin, matrix[y, x].kind)) &&
                (gameEnded <==> SafeSet() <= UncoveredSet()) &&
                uncoverCount == old(uncoverCount) + (if (y, x) in old(UncoveredSet()) then 1 else score)
      ensures FromTarget(Kinds(), old(UncoveredSet()), UncoveredSet(), (y, x))
      ensures !IsCellHighlighted(x, y) && (y, x) in Board() && Kinds()[(y, x)] != EMPTY ==>
                UncoveredSet() == old(UncoveredSet()) + {(y, x)}
      ensures !IsCellHighlighted(x, y) && (y, x) in Board() && (y, x) !in old(UncoveredSet()) ==>
                UncoveredSet() - old(UncoveredSet()) == Region(Kinds(), FlaggedCells(), old(UncoveredSet()), (y, x))
      ensures old(uncoverCount) == 0 && !IsCellHighlighted(x, y) && (y, x) in Board() ==>
                matrix[y, x].kind != MINE &&
                |old(MineSet())| + (if mines > 0 then mines else 0) - 1 <= |MineSet()| <=
                |old(MineSet())| + (if mines > 0 then mines else 0)
    {
      if IsCellHighlighted(x, y) {
        return None, 0, false;
      }
      if uncoverCount == 0 {
        var inRange := FirstMove(x, y);
        if !inRange {
          return Some(Cells.GetCharFor(skin, NOT_SET)), 0, true;
        }
      }
      ch, score, gameEnded := UncoverStarted(skin, x, y);
      if (y, x) in Board() && (y, x) !in old(UncoveredSet()) {
        OpenedIsRegion(Kinds(), FlaggedCells(), old(UncoveredSet()), UncoveredSet(), (y, x));
      }
    }

    /** What `uncover(x, y)` does once the mines are laid (`uncoverCount > 0`,
        or the first-move block just ran): the flag test, `uncoverCount++`,
        opening the cell and the flood, and the test for the end of the game.
        The nested calls from `uncoverAdjacent` always take this path. */
    method UncoverStarted(skin: Skin, x: int, y: int) returns (ch: Option<JChar>, score: int, gameEnded: bool)
      requires Shape() && uncoverCount >= 0
      modifies this`uncoverCount, uncovered
      decreases Covered(), 6
      ensures Shape() && uncoverCount >= old(uncoverCount)
      ensures IsCellHighlighted(x, y) ==>
                ch == None && score == 0 && !gameEnded && uncoverCount == old(uncoverCount) && unchanged(uncovered)
      ensures score == |UncoveredSet() - old(UncoveredSet())|
      ensures Opened(Kinds(), FlaggedCells(), old(UncoveredSet()), UncoveredSet(), {(y, x)})
      ensures (y, x) in old(UncoveredSet()) ==> score == 0
      ensures !IsCellHighlighted(x, y) && (y, x) !in Board() ==>
                ch == Some(Cells.GetCharFor(skin, NOT_SET)) && score == 0 && gameEnded &&
                uncoverCount == old(uncoverCount) + 1
      ensures !IsCellHighlighted(x, y) && (y, x) in Board() ==>
                (y, x) in UncoveredSet() && ch == Some(Cells.GetCharFor(skin, matrix[y, x].kind)) &&
                (gameEnded <==> SafeSet() <= UncoveredSet()) &&
                uncoverCount == old(uncoverCount) + (if (y, x) in old(UncoveredSet()) then 1 else score)
      ensures FromTarget(Kinds(), old(UncoveredSet()), UncoveredSet(), (y, x))
      ensures !IsCellHighlighted(x, y) && (y, x) in Board() && Kinds()[(y, x)] != EMPTY ==>
                UncoveredSet() == old(UncoveredSet()) + {(y, x)}
    {
      if IsCellHighlighted(x, y) {
        return None, 0, false;
      }
      uncoverCount := uncoverCount + 1;
      if !(0 <= y < uncovered.Length0 && 0 <= x < uncovered.Length1) {
        return Some(Cells.GetCharFor(skin, NOT_SET)), 0, true;
      }
      ch, score, gameEnded := UncoverOnBoard(skin, x, y);
    }

    /** The rest of `uncover` for a cell `[y][x]` of the board that is not
        flagged: open it (and flood), test for the end of the game and
        return the character of the cell. */
    method UncoverOnBoard(skin: Skin, x: int, y: int) returns (ch: Option<JChar>, score: int, gameEnded: bool)
      requires Shape() && uncoverCount > 0
      requires (y, x) in Board() && (y, x) !in FlaggedCells()
      modifies this`uncoverCount, uncovered
      decreases Covered(), 5
      ensures Shape()
      ensures score == |UncoveredSet() - old(UncoveredSet())|
      ensures Opened(Kinds(), FlaggedCells(), old(UncoveredSet()), UncoveredSet(), {(y, x)})
      ensures (y, x) in old(UncoveredSet()) ==> score == 0
      ensures (y, x) in UncoveredSet() && ch == Some(Cells.GetCharFor(skin, matrix[y, x].kind))
      ensures gameEnded <==> SafeSet() <= UncoveredSet()
      ensures uncoverCount == old(uncoverCount) + (if (y, x) in old(UncoveredSet()) then 0 else score - 1)
      ensures FromTarget(Kinds(), old(UncoveredSet()), UncoveredSet(), (y, x))
      ensures Kinds()[(y, x)] != EMPTY ==> UncoveredSet() == old(UncoveredSet()) + {(y, x)}
    {
      var wasUncovered, cellValue;
      wasUncovered, cellValue, score := Reveal(skin, x, y);
      gameEnded := AllSafeUncovered();
      ch := Some(Cells.GetCharFor(skin, cellValue));
    }

    /** `wasUncovered = uncovered[y][x]; uncovered[y][x] = true;` in `uncover`,
        on a cell of the board that is not flagged. */
    method Open(x: int, y: int) returns (wasUncovered: bool)
      requires Shape()
      requires (y, x) in Board() && (y, x) !in FlaggedCells()
      modifies uncovered
      ensures Shape()
      ensures wasUncovered == ((y, x) in old(UncoveredSet()))
      ensures UncoveredSet() == old(UncoveredSet()) + {(y, x)}
    {
      wasUncovered := uncovered[y, x];
      uncovered[y, x] := true;
      assert UncoveredSet() == old(UncoveredSet()) + {(y, x)} by {
        forall q | q in UncoveredSet() && q != (y, x) ensures q in old(UncoveredSet()) {
          assert uncovered[q.0, q.1] == old(uncovered[q.0, q.1]);
        }
        forall q | q in old(UncoveredSet()) ensures q in UncoveredSet() {
          assert uncovered[q.0, q.1] == old(uncovered[q.0, q.1]);
        }
      }
    }

    /** The part of `uncover` that runs once the move is known to be on the
        board and `uncoverCount` has been raised: it opens `[y][x]` and, when
        it was covered and is EMPTY, its four orthogonal neighbours through
        `uncoverAdjacent`. Setting `uncovered[y][x]` again when it is already
        set changes nothing, so that case only reads it. */
    method Reveal(skin: Skin, x: int, y: int) returns (wasUncovered: bool, cellValue: CellType, score: int)
      requires Shape() && uncoverCount > 0
      requires (y, x) in Board() && (y, x) !in FlaggedCells()
      modifies this`uncoverCount, uncovered
      decreases Covered(), 4
      ensures Shape()
      ensures wasUncovered == ((y, x) in old(UncoveredSet())) && cellValue == matrix[y, x].kind
      ensures (y, x) in UncoveredSet()
      ensures score == |UncoveredSet() - old(UncoveredSet())|
      ensures wasUncovered ==> score == 0
      ensures uncoverCount == old(uncoverCount) + (if wasUncovered then 0 else score - 1)
      ensures Opened(Kinds(), FlaggedCells(), old(UncoveredSet()), UncoveredSet(), {(y, x)})
      ensures FromTarget(Kinds(), old(UncoveredSet()), UncoveredSet(), (y, x))
      ensures cellValue != EMPTY ==> UncoveredSet() == old(UncoveredSet()) + {(y, x)}
    {
      wasUncovered := uncovered[y, x];
      cellValue := matrix[y, x].kind;
      if wasUncovered {
        score := 0;
        assert UncoveredSet() - old(UncoveredSet()) == {};
        assert UncoveredSet() == old(UncoveredSet()) + {(y, x)};
      } else {
        score := RevealCovered(skin, x, y);
      }
    }

    /** `uncovered[y][x] = true; score++;` and the flood, for a covered cell. */
    method RevealCovered(skin: Skin, x: int, y: int) returns (score: int)
      requires Shape() && uncoverCount > 0
      requires (y, x) in Board() && (y, x) !in FlaggedCells() && (y, x) !in UncoveredSet()
      modifies this`uncoverCount, uncovered
      decreases Covered(), 3
      ensures Shape()
      ensures (y, x) in UncoveredSet()
      ensures score == |UncoveredSet() - old(UncoveredSet())|
      ensures uncoverCount == old(uncoverCount) + score - 1
      ensures Opened(Kinds(), FlaggedCells(), old(UncoveredSet()), UncoveredSet(), {(y, x)})
      ensures FromTarget(Kinds(), old(UncoveredSet()), UncoveredSet(), (y, x))
      ensures matrix[y, x].kind != EMPTY ==> score == 1 && UncoveredSet() == old(UncoveredSet()) + {(y, x)}
    {
      ghost var u0 := UncoveredSet();
      var _ := Open(x, y);
      ghost var u1 := UncoveredSet();
      var s := FloodIfEmpty(skin, x, y);
      score := s + 1;
      OpenedWithTarget(Kinds(), FlaggedCells(), u0, u1, UncoveredSet(), (y, x));
      assert u1 - {(y, x)} == u0;
    }

    /** `if (cellValue == CellType.EMPTY) { ... }` in `uncover`, for the cell
        `[y][x]` it has just opened. */
    method FloodIfEmpty(skin: Skin, x: int, y: int) returns (score: int)
      requires Shape() && uncoverCount > 0
      requires (y, x) in Board() && (y, x) in UncoveredSet()
      modifies this`uncoverCount, uncovered
      decreases Covered() + {(y, x)}, 2
      ensures Shape()
      ensures uncoverCount == old(uncoverCount) + score
      ensures score == |UncoveredSet() - old(UncoveredSet())|
      ensures Opened(Kinds(), FlaggedCells(), old(UncoveredSet()), UncoveredSet(), {})
      ensures FloodClosed(Kinds(), FlaggedCells(), UncoveredSet(), (y, x))
      ensures FromTarget(Kinds(), old(UncoveredSet()) - {(y, x)}, UncoveredSet(), (y, x))
      ensures matrix[y, x].kind != EMPTY ==> score == 0 && UncoveredSet() == old(UncoveredSet())
    {
      if matrix[y, x].kind == EMPTY {
        score := Flood(skin, x, y);
        FloodedCell(Kinds(), FlaggedCells(), old(UncoveredSet()), UncoveredSet(), y, x);
      } else {
        score := 0;
        NotFlooded(Kinds(), FlaggedCells(), UncoveredSet(), y, x);
      }
    }

    /** The four `score += uncoverAdjacent(...)` lines of `uncover`, run for an
        open cell `[y][x]`: afterwards each of its orthogonal neighbours is off
        the board, open, a mine or flagged. */
    method Flood(skin: Skin, x: int, y: int) returns (score: int)
      requires Shape() && uncoverCount > 0
      requires (y, x) in UncoveredSet()
      modifies this`uncoverCount, uncovered
      decreases Covered() + {(y, x)}, 1
      ensures Shape()
      ensures uncoverCount == old(uncoverCount) + score
      ensures score == |UncoveredSet() - old(UncoveredSet())|
      ensures Flooded(Kinds(), FlaggedCells(), old(UncoveredSet()), UncoveredSet(), y, x)
    {
      ghost var u0 := UncoveredSet();
      var across, u1 := FloodRow(skin, x, y);
      ghost var u2 := UncoveredSet();
      var along, u3 := FloodColumn(skin, x, y);
      score := across + along;
      FourNeighbours(Kinds(), FlaggedCells(), u0, u1, u2, u3, UncoveredSet(), y, x);
    }

    /** The first two of those four lines: `uncoverAdjacent` on the left and
        then on the right neighbour of `[y][x]`. */
    method FloodRow(skin: Skin, x: int, y: int) returns (score: int, ghost mid: set<Pos>)
      requires Shape() && uncoverCount > 0
      requires (y, x) in UncoveredSet()
      modifies this`uncoverCount, uncovered
      decreases Covered() + {(y, x)}, 0
      ensures Shape()
      ensures uncoverCount == old(uncoverCount) + score
      ensures score == |UncoveredSet() - old(UncoveredSet())|
      ensures Spread(Kinds(), FlaggedCells(), old(UncoveredSet()), mid, (y, x - 1))
      ensures Spread(Kinds(), FlaggedCells(), mid, UncoveredSet(), (y, x + 1))
    {
      ghost var u0 := UncoveredSet();
      var first := UncoverAdjacent(skin, x - 1, y);
      mid := UncoveredSet();
      var second := UncoverAdjacent(skin, x + 1, y);
      score := first + second;
      GrowthAdds(u0, mid, UncoveredSet());
    }

    /** The last two of those four lines: `uncoverAdjacent` on the neighbour
        above `[y][x]` and then on the one below. */
    method FloodColumn(skin: Skin, x: int, y: int) returns (score: int, ghost mid: set<Pos>)
      requires Shape() && uncoverCount > 0
      requires (y, x) in UncoveredSet()
      modifies this`uncoverCount, uncovered
      decreases Covered() + {(y, x)}, 0
      ensures Shape()
      ensures uncoverCount == old(uncoverCount) + score
      ensures score == |UncoveredSet() - old(UncoveredSet())|
      ensures Spread(Kinds(), FlaggedCells(), old(UncoveredSet()), mid, (y - 1, x))
      ensures Spread(Kinds(), FlaggedCells(), mid, UncoveredSet(), (y + 1, x))
    {
      ghost var u0 := UncoveredSet();
      var first := UncoverAdjacent(skin, x, y - 1);
      mid := UncoveredSet();
      var second := UncoverAdjacent(skin, x, y + 1);
      score := first + second;
      GrowthAdds(u0, mid, UncoveredSet());
    }

    /** `uncoverAdjacent(x, y)`: uncovers `[y][x]` when it lies on the board, is
        covered and is not a mine, and returns the score of that `uncover`;
        otherwise 0. Afterwards the cell is off the board, open, a mine or
        flagged. */
    method UncoverAdjacent(skin: Skin, x: int, y: int) returns (score: int)
      requires Shape() && uncoverCount > 0
      modifies this`uncoverCount, uncovered
      decreases Covered(), 7
      ensures Shape()
      ensures uncoverCount == old(uncoverCount) + score
      ensures score == |UncoveredSet() - old(UncoveredSet())|
      ensures Spread(Kinds(), FlaggedCells(), old(UncoveredSet()), UncoveredSet(), (y, x))
      ensures score > 0 <==> (y, x) in Board() && (y, x) !in old(UncoveredSet()) && Kinds()[(y, x)] != MINE &&
                             (y, x) !in FlaggedCells()
      ensures score == 0 ==> UncoveredSet() == old(UncoveredSet())
      ensures score > 0 ==>
                UncoveredSet() - old(UncoveredSet()) == Region(Kinds(), FlaggedCells(), old(UncoveredSet()), (y, x))
    {
      score := 0;
      if 0 <= y < uncovered.Length0 && 0 <= x < uncovered.Length1 && !uncovered[y, x] && matrix[y, x].kind != MINE {
        var _, s, _ := UncoverStarted(skin, x, y);
        score := s;
        if !IsCellHighlighted(x, y) {
          OpenedIsRegion(Kinds(), FlaggedCells(), old(UncoveredSet()), UncoveredSet(), (y, x));
        }
      }
    }
  }
}
