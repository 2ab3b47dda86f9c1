/** The older board nested in Program.java (`Program.Minesweeper`): a `char`
    matrix and a `boolean` matrix of uncovered cells, both filled in place.
    The mines are laid and numbered by the constructor; there are no flags.
    Like the engine's board it indexes `[x][y]` everywhere except in
    `uncover` and `uncoverAdjacent`, which use `[y][x]`; the model keeps
    both, literally, and `(i, j)` below always means `array[i, j]`. */
module ProgramBoard {
  import opened JavaLang
  import opened CellType
  import opened Grids
  import opened Layout
  import opened Flood

  const MINE_CHAR: JChar := Chr('*')
  const EMPTY_CHAR: JChar := Chr(' ')
  const COVERED_CHAR: JChar := Chr('#')
  /** What `uncover` returns for a cell off the board. */
  const OFF_BOARD_CHAR: JChar := Chr('X')

  /** `(char) (n + '0')`, the character the numbering stores for a count. */
  function Digit(n: int): (c: JChar)
    ensures 1 <= n <= 8 ==> Chr('1') <= c <= Chr('8') && c == Chr('0') + n
  {
    CharOfInt(n + Chr('0'))
  }

  /** How the flood fill reads a stored character: a blank cell is EMPTY
      (it floods), a star is a MINE (it is never opened by a neighbour),
      anything else a number. */
  function KindOf(c: JChar): (k: CellType)
    ensures k == EMPTY <==> c == EMPTY_CHAR
    ensures k == MINE <==> c == MINE_CHAR
  {
    if c == EMPTY_CHAR then EMPTY else if c == MINE_CHAR then MINE else NUMBER
  }

  /** The stars left after the numbering has visited the cells `(x, 0)` to
      `(x, y - 1)` of row `x`, starting from the stars `s`. A visited cell
      with a star around it is overwritten by a digit, whether or not it
      held a star itself, so the cells visited later count one star less. */
  ghost function RowPass(s: set<Pos>, x: int, y: nat): set<Pos>
    decreases y
  {
    if y == 0 then s
    else
      var t := RowPass(s, x, y - 1);
      if NeighbourCount(t, x, y - 1) != 0 then t - {(x, y - 1)} else t
  }

  /** The stars left after the numbering has visited the rows `0` to `x - 1`,
      each `h` cells long. */
  ghost function BoardPass(s: set<Pos>, h: nat, x: nat): set<Pos>
  {
    if x == 0 then s else RowPass(BoardPass(s, h, x - 1), x - 1, h)
  }

  /** The count the numbering finds at `(i, j)`: the stars around it on the
      matrix as the earlier cells of the pass have left it. */
  ghost function PassCount(s: set<Pos>, h: nat, i: nat, j: nat): nat
  {
    NeighbourCount(RowPass(BoardPass(s, h, i), i, j), i, j)
  }

  /** The character the numbering leaves at `(i, j)` when the stars were
      `s`: the digit of its count if that is not zero, the star or blank it
      held otherwise. */
  ghost function PassChar(s: set<Pos>, h: nat, i: nat, j: nat): JChar
  {
    if PassCount(s, h, i, j) != 0 then Digit(PassCount(s, h, i, j))
    else if (i, j) in s then MINE_CHAR else EMPTY_CHAR
  }

  /** Numbering as the engine's board does it: a mine stays a mine, any
      other cell holds the number of mines around it, or a blank. */
  ghost function IntendedChar(s: set<Pos>, p: Pos): JChar
  {
    if p in s then MINE_CHAR
    else if NeighbourCount(s, p.0, p.1) == 0 then EMPTY_CHAR
    else Digit(NeighbourCount(s, p.0, p.1))
  }

  /** `p` and `q` are distinct and touch, sideways or diagonally. */
  predicate Touch(p: Pos, q: Pos)
  {
    p != q && -1 <= p.0 - q.0 <= 1 && -1 <= p.1 - q.1 <= 1
  }

  /** No two stars are neighbours. */
  ghost predicate Isolated(s: set<Pos>)
  {
    forall p, q {:trigger Touch(p, q)} | p in s && q in s :: !Touch(p, q)
  }

  /** A star of an isolated set has no star around it. */
  lemma IsolatedAlone(s: set<Pos>, x: int, y: int)
    requires Isolated(s) && (x, y) in s
    ensures NeighbourCount(s, x, y) == 0
  {
    forall q | q in s * Around(x, y) ensures false {
      assert Touch((x, y), q);
    }
    assert s * Around(x, y) == {};
  }

  /** Each visited cell either loses its star or leaves the stars alone. */
  lemma RowPassStep(s: set<Pos>, x: int, y: nat)
    requires y > 0
    ensures RowPass(s, x, y) == RowPass(s, x, y - 1) - {(x, y - 1)} ||
            RowPass(s, x, y) == RowPass(s, x, y - 1)
  {
  }

  /** The pass only ever removes stars, and only from the cells it visited. */
  lemma {:induction false} RowPassShrinks(s: set<Pos>, x: int, y: nat)
    ensures RowPass(s, x, y) <= s
    ensures forall i, j | (i, j) in s && (i != x || j >= y) :: (i, j) in RowPass(s, x, y)
    decreases y
  {
    if y > 0 {
      RowPassShrinks(s, x, y - 1);
      RowPassStep(s, x, y);
    }
  }

  lemma {:induction false} BoardPassShrinks(s: set<Pos>, h: nat, x: nat)
    ensures BoardPass(s, h, x) <= s
    ensures forall i, j | (i, j) in s && i >= x :: (i, j) in BoardPass(s, h, x)
    decreases x
  {
    if x > 0 {
      BoardPassShrinks(s, h, x - 1);
      RowPassShrinks(BoardPass(s, h, x - 1), x - 1, h);
    }
  }

  /** Every cell ends up blank, a star or one of the digits '1' to '8'; a
      cell that ends up a star held one before. */
  lemma PassCharRange(s: set<Pos>, h: nat, i: nat, j: nat)
    ensures PassChar(s, h, i, j) == EMPTY_CHAR || PassChar(s, h, i, j) == MINE_CHAR ||
            Chr('1') <= PassChar(s, h, i, j) <= Chr('8')
    ensures PassChar(s, h, i, j) == MINE_CHAR ==> (i, j) in s
    ensures PassChar(s, h, i, j) == EMPTY_CHAR ==> (i, j) !in s
  {
    NeighbourCountAtMost8(RowPass(BoardPass(s, h, i), i, j), i, j);
  }

  lemma {:induction false} IsolatedRowPass(s: set<Pos>, x: int, y: nat)
    requires Isolated(s)
    ensures RowPass(s, x, y) == s
    decreases y
  {
    if y > 0 {
      IsolatedRowPass(s, x, y - 1);
      if (x, y - 1) in s {
        IsolatedAlone(s, x, y - 1);
        RowPassKeeps(s, x, y);
      } else {
        RowPassKeeps(s, x, y);
      }
    }
  }

  /** A visited cell with no star around it leaves the stars as they were. */
  lemma RowPassKeeps(s: set<Pos>, x: int, y: nat)
    requires y > 0 && RowPass(s, x, y - 1) == s
    requires (x, y - 1) in s ==> NeighbourCount(s, x, y - 1) == 0
    ensures RowPass(s, x, y) == s
  {
    if (x, y - 1) !in s {
      assert s - {(x, y - 1)} == s;
    }
  }

  lemma {:induction false} IsolatedBoardPass(s: set<Pos>, h: nat, x: nat)
    requires Isolated(s)
    ensures BoardPass(s, h, x) == s
    decreases x
  {
    if x > 0 {
      calc {
        BoardPass(s, h, x);
        RowPass(BoardPass(s, h, x - 1), x - 1, h);
        { IsolatedBoardPass(s, h, x - 1); }
        RowPass(s, x - 1, h);
        { IsolatedRowPass(s, x - 1, h); }
        s;
      }
    }
  }

  /** When no two mines touch, the pass numbers the board as intended and
      keeps every mine. */
  lemma IsolatedPass(s: set<Pos>, h: nat, i: nat, j: nat)
    requires Isolated(s)
    ensures BoardPass(s, h, i) == s
    ensures PassChar(s, h, i, j) == IntendedChar(s, (i, j))
  {
    IsolatedBoardPass(s, h, i);
    IsolatedRowPass(s, i, j);
    if (i, j) in s {
      IsolatedAlone(s, i, j);
    }
  }

  /** Two touching mines on a board one row wide and two cells long: the
      pass turns the first mine into the digit '1' and keeps the second, so
      the board ends with one mine instead of two. */
  lemma TouchingMines()
    ensures var s := {(0, 0), (0, 1)};
            PassChar(s, 2, 0, 0) == Chr('1') && IntendedChar(s, (0, 0)) == MINE_CHAR &&
            PassChar(s, 2, 0, 1) == MINE_CHAR && BoardPass(s, 2, 1) == {(0, 1)}
  {
    var s := {(0, 0), (0, 1)};
    assert s * Around(0, 0) == {(0, 1)};
    assert NeighbourCount(s, 0, 0) == 1;
    var t := {(0, 1)};
    assert RowPass(s, 0, 1) == t;
    assert t * Around(0, 1) == {};
    assert NeighbourCount(t, 0, 1) == 0;
    assert RowPass(s, 0, 2) == t;
  }

  /** What a cell holds before the numbering: a star where a mine was laid,
      a blank elsewhere. */
  ghost function Unnumbered(s: set<Pos>, i: int, j: int): JChar
  {
    if (i, j) in s then MINE_CHAR else EMPTY_CHAR
  }

  /** The pass at `(x, y)`: the stars it leaves and the character it writes. */
  lemma PassStep(s: set<Pos>, h: nat, x: nat, y: nat)
    ensures var t := RowPass(BoardPass(s, h, x), x, y);
            var n := NeighbourCount(t, x, y);
            RowPass(BoardPass(s, h, x), x, y + 1) == (if n != 0 then t - {(x, y)} else t) &&
            PassChar(s, h, x, y) == (if n != 0 then Digit(n) else Unnumbered(s, x, y))
  {
  }

  /** The board pass over one more row is the row pass over it. */
  lemma BoardPassStep(s: set<Pos>, h: nat, x: nat, y: nat)
    requires y == h
    ensures BoardPass(s, h, x + 1) == RowPass(BoardPass(s, h, x), x, y)
  {
  }

  class Minesweeper {
    const matrix: array2<JChar>
    const uncovered: array2<bool>
    /** The stars the mine loop of the constructor laid, before the numbering. */
    ghost var laid: set<Pos>

    /** Every position of the matrix. */
    ghost function Board(): set<Pos>
    {
      Grid(matrix.Length0, matrix.Length1)
    }

    /** The positions holding a star. */
    ghost function Stars(): set<Pos>
      reads matrix
    {
      set p | p in Board() && matrix[p.0, p.1] == MINE_CHAR
    }

    /** The board as the flood fill reads it, see `KindOf`. */
    ghost function Kinds(): map<Pos, CellType>
      reads matrix
    {
      map p | p in Board() :: KindOf(matrix[p.0, p.1])
    }

    ghost function SafeSet(): set<Pos>
      reads matrix
    {
      Board() - Stars()
    }

    ghost function UncoveredSet(): set<Pos>
      reads uncovered
    {
      set p | p in Grid(uncovered.Length0, uncovered.Length1) && uncovered[p.0, p.1]
    }

    ghost function Covered(): set<Pos>
      reads uncovered
    {
      Board() - UncoveredSet()
    }

    ghost predicate Shape()
    {
      uncovered.Length0 == matrix.Length0 && uncovered.Length1 == matrix.Length1
    }

    /** Only blanks and stars, as between the mine loop and the numbering. */
    ghost predicate Plain()
      reads matrix
    {
      forall i, j | 0 <= i < matrix.Length0 && 0 <= j < matrix.Length1 ::
        matrix[i, j] == EMPTY_CHAR || matrix[i, j] == MINE_CHAR
    }

    /** `new Minesweeper(width, height, mines)`: a blank, covered board; then
        `mines` stars on distinct cells; then the numbering pass, which
        leaves at `[i][j]` the character `PassChar` gives for the laid
        stars. The mine loop needs a free cell per mine, or it never ends. */
    constructor (width: int, height: int, mines: int)
      requires 0 <= width && 0 <= height && mines <= width * height
      ensures matrix.Length0 == width && matrix.Length1 == height && Shape()
      ensures UncoveredSet() == {}
      ensures laid <= Board() && |laid| == (if mines > 0 then mines else 0)
      ensures forall i, j | 0 <= i < width && 0 <= j < height :: matrix[i, j] == PassChar(laid, height, i, j)
      ensures Stars() == BoardPass(laid, height, width) && Stars() <= laid
    {
      var m := new JChar[width, height];
      var u := new bool[width, height];
      var x := 0;
      while x < width
        invariant 0 <= x <= width
        invariant forall i, j | 0 <= i < x && 0 <= j < height :: m[i, j] == EMPTY_CHAR && !u[i, j]
      {
        var y := 0;
        while y < height
          invariant 0 <= y <= height
          invariant forall i, j | 0 <= i < x && 0 <= j < height :: m[i, j] == EMPTY_CHAR && !u[i, j]
          invariant forall j | 0 <= j < y :: m[x, j] == EMPTY_CHAR && !u[x, j]
        {
          m[x, y] := EMPTY_CHAR;
          u[x, y] := false;
          y := y + 1;
        }
        x := x + 1;
      }
      matrix := m;
      uncovered := u;
      new;
      assert Stars() == {};
      assert UncoveredSet() == {};
      GridSize(width, height);
      PlaceMines(mines);
      laid := Stars();
      PlaceNumbers();
      BoardPassShrinks(laid, height, width);
    }

    /** One pass of the `do ... while` of the mine loop: a cell without a
        star gets one. The random draw is repeated until it hits such a
        cell; the model picks any of them. */
    method PlaceMine() returns (randomX: int, randomY: int)
      requires Plain() && SafeSet() != {}
      modifies matrix
      ensures Plain()
      ensures (randomX, randomY) in old(SafeSet())
      ensures Stars() == old(Stars()) + {(randomX, randomY)}
    {
      ghost var before := Stars();
      ghost var p :| p in SafeSet();
      assert 0 <= p.0 < matrix.Length0 && 0 <= p.1 < matrix.Length1 && matrix[p.0, p.1] != MINE_CHAR;
      randomX, randomY :|
        0 <= randomX < matrix.Length0 && 0 <= randomY < matrix.Length1 && matrix[randomX, randomY] != MINE_CHAR;
      ghost var r := (randomX, randomY);
      assert r in Board() && r !in before;
      matrix[randomX, randomY] := MINE_CHAR;
      assert Plain();
      assert Stars() == before + {r} by {
        forall q | q in Stars() && q != r ensures q in before {
          assert matrix[q.0, q.1] == old(matrix[q.0, q.1]);
        }
        forall q | q in before ensures q in Stars() {
          assert matrix[q.0, q.1] == old(matrix[q.0, q.1]);
        }
      }
    }

    /** The mine loop of the constructor: `mines` new stars (none when
        `mines <= 0`), given a free cell for each. */
    method PlaceMines(mines: int)
      requires Plain() && mines <= |SafeSet()|
      modifies matrix
      ensures Plain()
      ensures old(Stars()) <= Stars()
      ensures |Stars()| == |old(Stars())| + (if mines > 0 then mines else 0)
    {
      var i := 0;
      while i < mines
        invariant (mines <= 0 && i == 0) || 0 <= i <= mines
        invariant Plain()
        invariant old(Stars()) <= Stars()
        invariant |Stars()| == |old(Stars())| + i
        invariant |SafeSet()| == |old(SafeSet())| - i
      {
        ghost var before := Stars();
        var x, y := PlaceMine();
        AddOne(Board(), before, (x, y));
        i := i + 1;
      }
    }

    /** `isMine(x, y)`: whether `[x][y]` holds a star; false off the board. */
    function IsMine(x: int, y: int): (r: bool)
      reads matrix
      ensures r <==> (x, y) in Stars()
    {
      0 <= x < matrix.Length0 && 0 <= y < matrix.Length1 && matrix[x, y] == MINE_CHAR
    }

    /** `getNumbersOfMines(x, y)`: the stars among the eight neighbours. */
    method GetNumbersOfMines(x: int, y: int) returns (num: int)
      ensures num == NeighbourCount(Stars(), x, y)
      ensures 0 <= num <= 8
    {
      ghost var s := Stars();
      num := 0;
      if IsMine(x - 1, y) {
        num := num + 1;
      }
      assert num == In(s, (x - 1, y));
      if IsMine(x + 1, y) {
        num := num + 1;
      }
      assert num == In(s, (x - 1, y)) + In(s, (x + 1, y));
      if IsMine(x, y - 1) {
        num := num + 1;
      }
      assert num == In(s, (x - 1, y)) + In(s, (x + 1, y)) + In(s, (x, y - 1));
      if IsMine(x, y + 1) {
        num := num + 1;
      }
      assert num == In(s, (x - 1, y)) + In(s, (x + 1, y)) + In(s, (x, y - 1)) + In(s, (x, y + 1));
      if IsMine(x - 1, y - 1) {
        num := num + 1;
      }
      assert num == In(s, (x - 1, y)) + In(s, (x + 1, y)) + In(s, (x, y - 1)) + In(s, (x, y + 1)) + In(s, (x - 1, y - 1));
      if IsMine(x + 1, y - 1) {
        num := num + 1;
      }
      assert num == In(s, (x - 1, y)) + In(s, (x + 1, y)) + In(s, (x, y - 1)) + In(s, (x, y + 1)) + In(s, (x - 1, y - 1)) + In(s, (x + 1, y - 1));
      if IsMine(x - 1, y + 1) {
        num := num + 1;
      }
      assert num == In(s, (x - 1, y)) + In(s, (x + 1, y)) + In(s, (x, y - 1)) + In(s, (x, y + 1)) + In(s, (x - 1, y - 1)) + In(s, (x + 1, y - 1)) + In(s, (x - 1, y + 1));
      if IsMine(x + 1, y + 1) {
        num := num + 1;
      }
      assert num == In(s, (x - 1, y)) + In(s, (x + 1, y)) + In(s, (x, y - 1)) + In(s, (x, y + 1)) + In(s, (x - 1, y - 1)) + In(s, (x + 1, y - 1)) + In(s, (x - 1, y + 1)) + In(s, (x + 1, y + 1));
      NeighbourSum(s, x, y);
      NeighbourCountAtMost8(s, x, y);
    }

    /** The body of the inner numbering loop for `[x][y]`: with stars around
        it, the cell takes the digit of their count, whatever it held (a
        star included); otherwise it stays as it is. */
    method NumberCell(x: int, y: int)
      requires 0 <= x < matrix.Length0 && 0 <= y < matrix.Length1
      modifies matrix
      ensures matrix[x, y] == (if NeighbourCount(old(Stars()), x, y) != 0
                               then Digit(NeighbourCount(old(Stars()), x, y)) else old(matrix[x, y]))
      ensures Stars() == (if NeighbourCount(old(Stars()), x, y) != 0 then old(Stars()) - {(x, y)} else old(Stars()))
      ensures forall j | 0 <= j < matrix.Length1 && j != y :: matrix[x, j] == old(matrix[x, j])
      ensures forall i, j | 0 <= i < matrix.Length0 && 0 <= j < matrix.Length1 && i != x ::
                matrix[i, j] == old(matrix[i, j])
    {
      var adjacentMines := GetNumbersOfMines(x, y);
      if adjacentMines != 0 {
        ghost var before := Stars();
        matrix[x, y] := Digit(adjacentMines);
        assert Stars() == before - {(x, y)} by {
          forall q | q in Stars() ensures q in before && q != (x, y) {
            assert matrix[q.0, q.1] == old(matrix[q.0, q.1]);
          }
          forall q | q in before && q != (x, y) ensures q in Stars() {
            assert matrix[q.0, q.1] == old(matrix[q.0, q.1]);
          }
        }
      }
    }

    /** One pass of the outer numbering loop, over the cells `[x][y]`, when
        the stars left by the rows before are `BoardPass(s, _, x)` and row
        `x` is still as the mine loop left it. */
    method NumberRow(x: int, ghost s: set<Pos>)
      requires 0 <= x < matrix.Length0
      requires Stars() == BoardPass(s, matrix.Length1, x)
      requires forall j | 0 <= j < matrix.Length1 :: matrix[x, j] == Unnumbered(s, x, j)
      modifies matrix
      ensures Stars() == BoardPass(s, matrix.Length1, x + 1)
      ensures forall j | 0 <= j < matrix.Length1 :: matrix[x, j] == PassChar(s, matrix.Length1, x, j)
      ensures forall i, j | 0 <= i < matrix.Length0 && 0 <= j < matrix.Length1 && i != x ::
                matrix[i, j] == old(matrix[i, j])
    {
      ghost var h := matrix.Length1;
      ghost var b := BoardPass(s, h, x);
      var y := 0;
      while y < matrix.Length1
        invariant 0 <= y <= h
        invariant Stars() == RowPass(b, x, y)
        invariant forall j | 0 <= j < y :: matrix[x, j] == PassChar(s, h, x, j)
        invariant forall j | y <= j < h :: matrix[x, j] == Unnumbered(s, x, j)
        invariant forall i, j | 0 <= i < matrix.Length0 && 0 <= j < h && i != x ::
                    matrix[i, j] == old(matrix[i, j])
      {
        NumberNext(x, y, s, b);
        y := y + 1;
      }
      BoardPassStep(s, h, x, y);
    }

    /** `NumberCell(x, y)` as a step of the pass: the stars and the cell
        move on from `RowPass(b, x, y)` to `RowPass(b, x, y + 1)`. */
    method NumberNext(x: int, y: int, ghost s: set<Pos>, ghost b: set<Pos>)
      requires 0 <= x < matrix.Length0 && 0 <= y < matrix.Length1
      requires b == BoardPass(s, matrix.Length1, x) && Stars() == RowPass(b, x, y)
      requires matrix[x, y] == Unnumbered(s, x, y)
      modifies matrix
      ensures Stars() == RowPass(b, x, y + 1)
      ensures matrix[x, y] == PassChar(s, matrix.Length1, x, y)
      ensures forall j | 0 <= j < matrix.Length1 && j != y :: matrix[x, j] == old(matrix[x, j])
      ensures forall i, j | 0 <= i < matrix.Length0 && 0 <= j < matrix.Length1 && i != x ::
                matrix[i, j] == old(matrix[i, j])
    {
      PassStep(s, matrix.Length1, x, y);
      NumberCell(x, y);
    }

    /** The numbering loop of the constructor, on a board of blanks and
        stars: every cell ends as `PassChar` says. */
    method PlaceNumbers()
      requires Plain()
      modifies matrix
      ensures Stars() == BoardPass(old(Stars()), matrix.Length1, matrix.Length0)
      ensures forall i, j | 0 <= i < matrix.Length0 && 0 <= j < matrix.Length1 ::
                matrix[i, j] == PassChar(old(Stars()), matrix.Length1, i, j)
    {
      ghost var s := Stars();
      ghost var h := matrix.Length1;
      forall i, j | 0 <= i < matrix.Length0 && 0 <= j < h
        ensures matrix[i, j] == Unnumbered(s, i, j)
      {
        assert (i, j) in Board();
      }
      var x := 0;
      while x < matrix.Length0
        invariant 0 <= x <= matrix.Length0
        invariant Stars() == BoardPass(s, h, x)
        invariant forall i, j | 0 <= i < x && 0 <= j < h :: matrix[i, j] == PassChar(s, h, i, j)
        invariant forall i, j | x <= i < matrix.Length0 && 0 <= j < h :: matrix[i, j] == Unnumbered(s, i, j)
      {
        NumberRow(x, s);
        x := x + 1;
      }
    }
  
    /** The loop at the end of `uncover`: the game is over when every cell
        without a star is uncovered. */
    method AllSafeUncovered() returns (gameEnded: bool)
      requires Shape()
      ensures gameEnded <==> SafeSet() <= UncoveredSet()
    {
      gameEnded := true;
      var x := 0;
      while x < matrix.Length0
        invariant 0 <= x <= matrix.Length0
        invariant gameEnded
        invariant forall i, j | 0 <= i < x && 0 <= j < matrix.Length1 :: uncovered[i, j] || matrix[i, j] == MINE_CHAR
      {
        var y := 0;
        while y < matrix.Length1
          invariant 0 <= y <= matrix.Length1
          invariant gameEnded
          invariant forall j | 0 <= j < y :: uncovered[x, j] || matrix[x, j] == MINE_CHAR
        {
          if !uncovered[x, y] && matrix[x, y] != MINE_CHAR {
            gameEnded := false;
            break;
          }
          y := y + 1;
        }
        if !gameEnded {
          assert (x, y) in SafeSet() && (x, y) !in UncoveredSet();
          break;
        }
        x := x + 1;
      }
      if gameEnded {
        forall p | p in SafeSet() ensures p in UncoveredSet() {
          assert uncovered[p.0, p.1];
        }
      }
    }

    /** `uncover(x, y)`: opens the cell `[y][x]`, and the cells around a blank
        one, and reports the character of the cell, the number of cells it
        opened and whether every cell without a star is now open. Off the
        board it changes nothing and reports `('X', 0, true)`. A star is
        opened like any other cell. */
    method Uncover(x: int, y: int) returns (ch: JChar, score: int, gameEnded: bool)
      requires Shape()
      modifies uncovered
      decreases Covered(), 5
      ensures score == |UncoveredSet() - old(UncoveredSet())|
      ensures Opened(Kinds(), {}, old(UncoveredSet()), UncoveredSet(), {(y, x)})
      ensures (y, x) in old(UncoveredSet()) ==> score == 0 && UncoveredSet() == old(UncoveredSet())
      ensures (y, x) !in Board() ==> ch == OFF_BOARD_CHAR && score == 0 && gameEnded && unchanged(uncovered)
      ensures (y, x) in Board() ==>
                (y, x) in UncoveredSet() && ch == matrix[y, x] && (gameEnded <==> SafeSet() <= UncoveredSet())
      ensures FromTarget(Kinds(), old(UncoveredSet()), UncoveredSet(), (y, x))
      ensures (y, x) in Board() && matrix[y, x] != EMPTY_CHAR ==> UncoveredSet() == old(UncoveredSet()) + {(y, x)}
      ensures (y, x) in Board() && (y, x) !in old(UncoveredSet()) ==>
                UncoveredSet() - old(UncoveredSet()) == Region(Kinds(), {}, old(UncoveredSet()), (y, x))
    {
      if !(0 <= y < uncovered.Length0 && 0 <= x < uncovered.Length1) {
        return OFF_BOARD_CHAR, 0, true;
      }
      var wasUncovered;
      wasUncovered, ch, score := Reveal(x, y);
      gameEnded := AllSafeUncovered();
      if !wasUncovered {
        OpenedIsRegion(Kinds(), {}, old(UncoveredSet()), UncoveredSet(), (y, x));
      }
    }

    /** `wasUncovered = uncovered[y][x]; uncovered[y][x] = true; cellValue =
        matrix[y][x];` and, for a covered cell, the score and the flood. Setting
        `uncovered[y][x]` again when it is already set changes nothing, so that
        case only reads it. */
    method Reveal(x: int, y: int) returns (wasUncovered: bool, cellValue: JChar, score: int)
      requires Shape() && (y, x) in Board()
      modifies uncovered
      decreases Covered(), 4
      ensures wasUncovered == ((y, x) in old(UncoveredSet())) && cellValue == matrix[y, x]
      ensures (y, x) in UncoveredSet()
      ensures score == |UncoveredSet() - old(UncoveredSet())|
      ensures wasUncovered ==> score == 0
      ensures Opened(Kinds(), {}, old(UncoveredSet()), UncoveredSet(), {(y, x)})
      ensures FromTarget(Kinds(), old(UncoveredSet()), UncoveredSet(), (y, x))
      ensures cellValue != EMPTY_CHAR ==> UncoveredSet() == old(UncoveredSet()) + {(y, x)}
    {
      wasUncovered := uncovered[y, x];
      cellValue := matrix[y, x];
      if wasUncovered {
        score := 0;
        assert UncoveredSet() - old(UncoveredSet()) == {};
        assert UncoveredSet() == old(UncoveredSet()) + {(y, x)};
      } else {
        score := RevealCovered(x, y);
      }
    }

    /** `uncovered[y][x] = true`, in `uncover`, on a cell of the board. */
    method Open(x: int, y: int)
      requires Shape() && (y, x) in Board()
      modifies uncovered
      ensures UncoveredSet() == old(UncoveredSet()) + {(y, x)}
    {
      uncovered[y, x] := true;
      assert UncoveredSet() == old(UncoveredSet()) + {(y, x)} by {
        forall q | q in UncoveredSet() && q != (y, x) ensures q in old(UncoveredSet()) {
          assert uncovered[q.0, q.1] == old(uncovered[q.0, q.1]);
        }
        forall q | q in old(UncoveredSet()) ensures q in UncoveredSet() {
          assert uncovered[q.0, q.1] == old(uncovered[q.0, q.1]);
        }
      }
    }

    /** `score++` and the flood, for a covered cell that is now opened. */
    method RevealCovered(x: int, y: int) returns (score: int)
      requires Shape() && (y, x) in Board() && (y, x) !in UncoveredSet()
      modifies uncovered
      decreases Covered(), 3
      ensures (y, x) in UncoveredSet()
      ensures score == |UncoveredSet() - old(UncoveredSet())|
      ensures Opened(Kinds(), {}, old(UncoveredSet()), UncoveredSet(), {(y, x)})
      ensures FromTarget(Kinds(), old(UncoveredSet()), UncoveredSet(), (y, x))
      ensures matrix[y, x] != EMPTY_CHAR ==> score == 1 && UncoveredSet() == old(UncoveredSet()) + {(y, x)}
    {
      ghost var u0 := UncoveredSet();
      Open(x, y);
      ghost var u1 := UncoveredSet();
      var s := FloodIfEmpty(x, y);
      score := s + 1;
      OpenedWithTarget(Kinds(), {}, u0, u1, UncoveredSet(), (y, x));
      assert u1 - {(y, x)} == u0;
    }

    /** `if (cellValue == ' ') { ... }` in `uncover`, for the cell `[y][x]`
        it has just opened. */
    method FloodIfEmpty(x: int, y: int) returns (score: int)
      requires Shape() && (y, x) in Board() && (y, x) in UncoveredSet()
      modifies uncovered
      decreases Covered() + {(y, x)}, 2
      ensures score == |UncoveredSet() - old(UncoveredSet())|
      ensures Opened(Kinds(), {}, old(UncoveredSet()), UncoveredSet(), {})
      ensures FloodClosed(Kinds(), {}, UncoveredSet(), (y, x))
      ensures FromTarget(Kinds(), old(UncoveredSet()) - {(y, x)}, UncoveredSet(), (y, x))
      ensures matrix[y, x] != EMPTY_CHAR ==> score == 0 && UncoveredSet() == old(UncoveredSet())
    {
      if matrix[y, x] == EMPTY_CHAR {
        score := Flood(x, y);
        FloodedCell(Kinds(), {}, old(UncoveredSet()), UncoveredSet(), y, x);
      } else {
        score := 0;
        NotFlooded(Kinds(), {}, UncoveredSet(), y, x);
      }
    }

    /** The four `score += uncoverAdjacent(...)` lines of `uncover`, for an
        open cell `[y][x]`: afterwards each orthogonal neighbour is off the
        board, open or a star. */
    method Flood(x: int, y: int) returns (score: int)
      requires Shape() && (y, x) in UncoveredSet()
      modifies uncovered
      decreases Covered() + {(y, x)}, 1
      ensures score == |UncoveredSet() - old(UncoveredSet())|
      ensures Flooded(Kinds(), {}, old(UncoveredSet()), UncoveredSet(), y, x)
    {
      ghost var u0 := UncoveredSet();
      var across, u1 := FloodRow(x, y);
      ghost var u2 := UncoveredSet();
      var along, u3 := FloodColumn(x, y);
      score := across + along;
      FourNeighbours(Kinds(), {}, u0, u1, u2, u3, UncoveredSet(), y, x);
    }

    /** The first two of those four lines: `uncoverAdjacent` on the left and
        then on the right neighbour of `[y][x]`. */
    method FloodRow(x: int, y: int) returns (score: int, ghost mid: set<Pos>)
      requires Shape() && (y, x) in UncoveredSet()
      modifies uncovered
      decreases Covered() + {(y, x)}, 0
      ensures score == |UncoveredSet() - old(UncoveredSet())|
      ensures Spread(Kinds(), {}, old(UncoveredSet()), mid, (y, x - 1))
      ensures Spread(Kinds(), {}, mid, UncoveredSet(), (y, x + 1))
    {
      ghost var u0 := UncoveredSet();
      var first := UncoverAdjacent(x - 1, y);
      mid := UncoveredSet();
      var second := UncoverAdjacent(x + 1, y);
      score := first + second;
      GrowthAdds(u0, mid, UncoveredSet());
    }

    /** The last two of those four lines: `uncoverAdjacent` on the neighbour
        above `[y][x]` and then on the one below. */
    method FloodColumn(x: int, y: int) returns (score: int, ghost mid: set<Pos>)
      requires Shape() && (y, x) in UncoveredSet()
      modifies uncovered
      decreases Covered() + {(y, x)}, 0
      ensures score == |UncoveredSet() - old(UncoveredSet())|
      ensures Spread(Kinds(), {}, old(UncoveredSet()), mid, (y - 1, x))
      ensures Spread(Kinds(), {}, mid, UncoveredSet(), (y + 1, x))
    {
      ghost var u0 := UncoveredSet();
      var first := UncoverAdjacent(x, y - 1);
      mid := UncoveredSet();
      var second := UncoverAdjacent(x, y + 1);
      score := first + second;
      GrowthAdds(u0, mid, UncoveredSet());
    }

    /** `uncoverAdjacent(x, y)`: uncovers `[y][x]` when it lies on the board,
        is covered and holds no star, and returns the score of that
        `uncover`; otherwise 0. Afterwards the cell is off the board, open
        or a star. */
    method UncoverAdjacent(x: int, y: int) returns (score: int)
      requires Shape()
      modifies uncovered
      decreases Covered(), 6
      ensures score == |UncoveredSet() - old(UncoveredSet())|
      ensures Spread(Kinds(), {}, old(UncoveredSet()), UncoveredSet(), (y, x))
      ensures score > 0 <==> (y, x) in Board() && (y, x) !in old(UncoveredSet()) && matrix[y, x] != MINE_CHAR
      ensures score == 0 ==> UncoveredSet() == old(UncoveredSet())
      ensures score > 0 ==> UncoveredSet() - old(UncoveredSet()) == Region(Kinds(), {}, old(UncoveredSet()), (y, x))
    {
      score := 0;
      if 0 <= y < uncovered.Length0 && 0 <= x < uncovered.Length1 && !uncovered[y, x] && matrix[y, x] != MINE_CHAR {
        var _, s, _ := Uncover(x, y);
        score := s;
      }
    }

    /** What `getFieldAsString` draws for the cell `[x][y]`: its character
        once uncovered, '#' before. */
    function Glyph(x: int, y: int): JChar
      requires Shape() && 0 <= x < matrix.Length0 && 0 <= y < matrix.Length1
      reads matrix, uncovered
    {
      if uncovered[x, y] then matrix[x, y] else COVERED_CHAR
    }

    /** The glyphs of the cells `[x][0]` to `[x][n - 1]`. */
    ghost function GlyphRow(x: int, n: int): (row: seq<JChar>)
      requires Shape() && 0 <= x < matrix.Length0 && 0 <= n <= matrix.Length1
      reads matrix, uncovered
      ensures |row| == n
      decreases n
    {
      if n == 0 then [] else GlyphRow(x, n - 1) + [Glyph(x, n - 1)]
    }

    /** Entry `y` of a glyph row is the glyph of the cell `[x][y]`. */
    lemma {:induction false} GlyphRowAt(x: int, n: int, y: int)
      requires Shape() && 0 <= x < matrix.Length0 && 0 <= y < n <= matrix.Length1
      ensures GlyphRow(x, n)[y] == Glyph(x, y)
      decreases n
    {
      if y < n - 1 {
        GlyphRowAt(x, n - 1, y);
      }
    }

    /** The whole rows `[0]` to `[n - 1]` of glyphs. */
    ghost function GlyphRows(n: int): (rows: seq<seq<JChar>>)
      requires Shape() && 0 <= n <= matrix.Length0
      reads matrix, uncovered
      ensures |rows| == n
      decreases n
    {
      if n == 0 then [] else GlyphRows(n - 1) + [GlyphRow(n - 1, matrix.Length1)]
    }

    /** Entry `x` of the glyph rows is the whole row `[x]`. */
    lemma {:induction false} GlyphRowsAt(n: int, x: int)
      requires Shape() && 0 <= x < n <= matrix.Length0
      ensures GlyphRows(n)[x] == GlyphRow(x, matrix.Length1)
      decreases n
    {
      if x < n - 1 {
        GlyphRowsAt(n - 1, x);
      }
    }

    /** `getFieldAsString()`: one line per first index, see `Layout.Text`. */
    method GetFieldAsString() returns (res: JString)
      requires Shape()
      ensures res == Text(GlyphRows(matrix.Length0))
      ensures matrix.Length1 >= 1 ==> |res| == matrix.Length0 * (2 * matrix.Length1)
    {
      ghost var rows := GlyphRows(matrix.Length0);
      res := [];
      var x := 0;
      while x < matrix.Length0
        invariant 0 <= x <= matrix.Length0
        invariant res == Text(rows[..x])
        invariant rows == GlyphRows(matrix.Length0)
      {
        var line := FieldLine(x, rows);
        TextStep(rows, x);
        res := res + line;
        x := x + 1;
      }
      TextStep(rows, x);
      if matrix.Length1 >= 1 {
        FieldTextLength();
      }
    }

    /** The field text has two units per cell: a glyph and a separator. */
    lemma FieldTextLength()
      requires Shape() && matrix.Length1 >= 1
      ensures |Text(GlyphRows(matrix.Length0))| == matrix.Length0 * (2 * matrix.Length1)
    {
      var rows := GlyphRows(matrix.Length0);
      forall i | 0 <= i < |rows|
        ensures |rows[i]| == matrix.Length1
      {
        GlyphRowsAt(matrix.Length0, i);
      }
      TextLength(rows, matrix.Length1);
    }

    /** One pass of the outer loop of `getFieldAsString()`: the glyphs of the
        cells `[x][y]`, separated by spaces, and a newline. */
    method FieldLine(x: int, ghost rows: seq<seq<JChar>>) returns (line: JString)
      requires Shape() && 0 <= x < matrix.Length0 && rows == GlyphRows(matrix.Length0)
      ensures line == Line(rows[x])
    {
      GlyphRowsAt(matrix.Length0, x);
      ghost var row := rows[x];
      line := [];
      var y := 0;
      while y < matrix.Length1
        invariant 0 <= y <= matrix.Length1
        invariant line == LinePrefix(row, y)
      {
        GlyphRowAt(x, matrix.Length1, y);
        line := line + [if uncovered[x, y] then matrix[x, y] else COVERED_CHAR];
        if matrix.Length1 - 1 != y {
          line := line + [Chr(' ')];
        }
        y := y + 1;
      }
      line := line + [Chr('\n')];
    }
  }
}
